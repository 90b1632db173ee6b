/** The floor quad: four textured vertices on the plane y = 0 spanning
    [-1, 1] in x and z, and an index list of two triangles that split the
    square along its diagonal. */
module Quad {
  import opened Geometry
  import opened TriangleList

  datatype VertexPositionTexture = VertexPositionTexture(position: Vec3, textureCoordinate: Vec2)

  /** The texture mapping the table follows: x runs left to right across the
      texture, z runs from its bottom edge to its top edge. */
  function TextureCoordinateOf(p: Vec3): Vec2 {
    Vec2((p.x + 1.0) / 2.0, (1.0 - p.z) / 2.0)
  }

  /** A corner of the square [-1, 1]^2 on the plane y = 0. */
  predicate IsFloorCorner(p: Vec3) {
    && (p.x == -1.0 || p.x == 1.0)
    && p.y == 0.0
    && (p.z == -1.0 || p.z == 1.0)
  }

  /** A corner of the unit texture square. */
  predicate IsTextureCorner(uv: Vec2) {
    (uv.x == 0.0 || uv.x == 1.0) && (uv.y == 0.0 || uv.y == 1.0)
  }

  /** The vertex table: four distinct corners of the floor square, each
      carrying the texture coordinate of the mapping above, so that the
      texture covers the whole square once. */
  function CreateVertexBuffer(): (vertices: seq<VertexPositionTexture>)
    ensures |vertices| == 4
    ensures forall k :: 0 <= k < |vertices| ==> IsFloorCorner(vertices[k].position)
    ensures forall k, l :: 0 <= k < l < |vertices| ==> vertices[k].position != vertices[l].position
    ensures forall k :: 0 <= k < |vertices| ==>
              vertices[k].textureCoordinate == TextureCoordinateOf(vertices[k].position)
    ensures forall k :: 0 <= k < |vertices| ==> IsTextureCorner(vertices[k].textureCoordinate)
    ensures forall k, l :: 0 <= k < l < |vertices| ==> vertices[k].textureCoordinate != vertices[l].textureCoordinate
  {
    [ VertexPositionTexture(Vec3(-1.0, 0.0, -1.0), Vec2(0.0, 1.0)),
      VertexPositionTexture(Vec3(-1.0, 0.0, 1.0), Vec2(0.0, 0.0)),
      VertexPositionTexture(Vec3(1.0, 0.0, -1.0), Vec2(1.0, 1.0)),
      VertexPositionTexture(Vec3(1.0, 0.0, 1.0), Vec2(1.0, 0.0)) ]
  }

  /** The index list: six 16-bit indices, two triangles over the four
      vertices, each non-degenerate, and every vertex used. */
  function CreateIndexBuffer(): (indices: seq<int>)
    ensures |indices| == 6
    ensures Corners(indices, 0) == Triangle(1, 0, 3) && Corners(indices, 1) == Triangle(3, 0, 2)
    ensures forall k :: 0 <= k < |indices| ==> ToUShort(indices[k]) == indices[k]
    ensures WellFormed(indices, 4)
    ensures UsesEveryVertex(indices, 4)
  {
    var indices := [1, 0, 3, 3, 0, 2];
    IndexListWellFormed(indices);
    indices
  }

  lemma IndexListWellFormed(indices: seq<int>)
    requires indices == [1, 0, 3, 3, 0, 2]
    ensures WellFormed(indices, 4) && UsesEveryVertex(indices, 4)
  {
    forall t: nat | 3 * t + 2 < |indices|
      ensures NonDegenerate(Corners(indices, t)) && CornersBelow(Corners(indices, t), 4)
    {
      assert t == 0 || t == 1;
    }
    InRangeByTriangles(indices, 4);
    assert indices[1] == 0 && indices[0] == 1 && indices[5] == 2 && indices[2] == 3;
  }

  function Triangles(): seq<Triangle> {
    var indices := CreateIndexBuffer();
    [Corners(indices, 0), Corners(indices, 1)]
  }

  /** The two triangles split the square along the diagonal from vertex 0 to
      vertex 3: they share exactly those two corners, the other corner of
      each lies on its own side, and together they use all four vertices. */
  lemma SplitAlongDiagonal()
    ensures var tris := Triangles();
      && Mentions(tris[0], 0) && Mentions(tris[0], 3) && Mentions(tris[1], 0) && Mentions(tris[1], 3)
      && Mentions(tris[0], 1) && !Mentions(tris[0], 2)
      && Mentions(tris[1], 2) && !Mentions(tris[1], 1)
  {
  }

  /** Both triangles are wound the same way: they run along the shared
      diagonal in opposite directions, and no directed edge is repeated. */
  lemma WindingConsistent()
    ensures HasEdge(Triangles()[0], Edge(0, 3)) && HasEdge(Triangles()[1], Edge(3, 0))
    ensures NoRepeatedEdge(Triangles())
  {
    var tris := Triangles();
    forall t, e, s, f |
      && 0 <= t < |tris| && 0 <= e < 3 && 0 <= s < |tris| && 0 <= f < 3
      && EdgeOf(tris[t], e) == EdgeOf(tris[s], f)
      ensures t == s && e == f
    {
      assert t == 0 || t == 1;
      assert s == 0 || s == 1;
      assert e == 0 || e == 1 || e == 2;
      assert f == 0 || f == 1 || f == 2;
    }
  }

  /** Position of vertex k of the table. */
  function Position(k: int): Vec3
    requires 0 <= k < 4
  {
    CreateVertexBuffer()[k].position
  }

  /** The right-hand-rule normal of triangle t of the list. */
  function Normal(t: int): Vec3
    requires 0 <= t < 2
  {
    var tri := Triangles()[t];
    WindingNormal(Position(tri.a), Position(tri.b), Position(tri.c))
  }

  /** Both triangles have the same normal, perpendicular to the floor and
      pointing down (-y). */
  lemma NormalsAgree()
    ensures Normal(0) == Normal(1) == Vec3(0.0, -4.0, 0.0)
  {
    FirstNormal();
    SecondNormal();
  }

  /** The edge vectors from each first corner are given as constants, so
      that the cross product is evaluated on numbers. */
  lemma FirstNormal()
    ensures Normal(0) == Vec3(0.0, -4.0, 0.0)
  {
    NormalByEdges(0, Vec3(0.0, 0.0, -2.0), Vec3(2.0, 0.0, 0.0));
  }

  lemma SecondNormal()
    ensures Normal(1) == Vec3(0.0, -4.0, 0.0)
  {
    NormalByEdges(1, Vec3(-2.0, 0.0, -2.0), Vec3(0.0, 0.0, -2.0));
  }

  lemma NormalByEdges(t: int, u: Vec3, v: Vec3)
    requires 0 <= t < 2
    requires Sub(Position(Triangles()[t].b), Position(Triangles()[t].a)) == u
    requires Sub(Position(Triangles()[t].c), Position(Triangles()[t].a)) == v
    ensures Normal(t) == Cross(u, v)
  {
  }

  /** The primitive count the draw call passes as a constant. */
  const DrawPrimitiveCount: int := 2

  /** The constant primitive count is the one the index list holds: two
      triangles, which use all six indices. */
  lemma DrawCountMatchesIndices()
    ensures PrimitiveCount(|CreateIndexBuffer()|) == DrawPrimitiveCount
    ensures 3 * DrawPrimitiveCount == |CreateIndexBuffer()|
  {
  }
}
