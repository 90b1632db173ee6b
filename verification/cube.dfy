/** The light cube: eight white corners of the cube [-1, 1]^3 and an index
    list of twelve triangles, two per face. */
module Cube {
  import opened Geometry
  import opened TriangleList

  datatype Color = Color(r: int, g: int, b: int, a: int)

  /** The framework's opaque white: every channel at 255. */
  const White: Color := Color(255, 255, 255, 255)

  datatype VertexPositionColor = VertexPositionColor(position: Vec3, color: Color)

  /** A corner of [-1, 1]^3: every coordinate is -1 or 1. */
  predicate IsCubeCorner(p: Vec3) {
    && (p.x == -1.0 || p.x == 1.0)
    && (p.y == -1.0 || p.y == 1.0)
    && (p.z == -1.0 || p.z == 1.0)
  }

  /** Position of vertex k of the table, in the order Cube.cs lists
      them; the origin for an index outside the table. */
  function Position(k: int): Vec3 {
    match k
    case 0 => Vec3(-1.0, -1.0, 1.0)
    case 1 => Vec3(1.0, -1.0, 1.0)
    case 2 => Vec3(-1.0, 1.0, 1.0)
    case 3 => Vec3(1.0, 1.0, 1.0)
    case 4 => Vec3(-1.0, 1.0, -1.0)
    case 5 => Vec3(1.0, 1.0, -1.0)
    case 6 => Vec3(-1.0, -1.0, -1.0)
    case 7 => Vec3(1.0, -1.0, -1.0)
    case _ => Zero3
  }

  /** The vertex table: eight distinct corners of the cube, all white. */
  function CreateVertexBuffer(): (vertices: seq<VertexPositionColor>)
    ensures |vertices| == 8
    ensures forall k :: 0 <= k < |vertices| ==> vertices[k].position == Position(k) && vertices[k].color == White
    ensures forall k :: 0 <= k < |vertices| ==> IsCubeCorner(vertices[k].position)
    ensures forall k, l :: 0 <= k < l < |vertices| ==> vertices[k].position != vertices[l].position
  {
    seq(8, k => VertexPositionColor(Position(k), White))
  }

  /** Triangle t of the index table, in the order Cube.cs lists the
      triples, two per face; a placeholder outside the table. */
  function TableTriangle(t: int): Triangle {
    match t
    case 0 => Triangle(7, 1, 0)
    case 1 => Triangle(0, 6, 7)
    case 2 => Triangle(6, 0, 2)
    case 3 => Triangle(2, 4, 6)
    case 4 => Triangle(4, 2, 3)
    case 5 => Triangle(3, 5, 4)
    case 6 => Triangle(5, 3, 1)
    case 7 => Triangle(1, 7, 5)
    case 8 => Triangle(3, 2, 0)
    case 9 => Triangle(0, 1, 3)
    case 10 => Triangle(7, 6, 4)
    case 11 => Triangle(4, 5, 7)
    case _ => Triangle(0, 0, 0)
  }

  function Triangles(): seq<Triangle> {
    seq(12, t => TableTriangle(t))
  }

  /** `indices` lists the twelve triangles of the table, three entries each. */
  ghost predicate ListsTable(indices: seq<int>) {
    && |indices| == 36
    && forall t :: 0 <= t < 12 ==> Corners(indices, t) == TableTriangle(t)
  }

  /** The index table: 36 indices, a well-formed triangle list over the 8
      vertices that references every one of them; its t-th triple is the
      t-th triangle of the table. */
  function CreateIndexBuffer(): (indices: seq<int>)
    ensures |indices| == 6 * 6
    ensures forall t :: 0 <= t < 12 ==> Corners(indices, t) == TableTriangle(t)
    ensures WellFormed(indices, 8)
    ensures UsesEveryVertex(indices, 8)
  {
    IndexTableTriangles();
    TableWellFormed(Flatten(Triangles()));
    TableUsesEveryVertex(Flatten(Triangles()));
    Flatten(Triangles())
  }

  lemma IndexTableTriangles()
    ensures ListsTable(Flatten(Triangles()))
  {
    forall t | 0 <= t < 12
      ensures Corners(Flatten(Triangles()), t) == TableTriangle(t)
    {
      CornersOfFlatten(Triangles(), t);
    }
  }

  /** Every triangle of the table has three distinct corners among the
      eight vertices. */
  lemma TableTrianglesWellFormed(t: int)
    requires 0 <= t < 12
    ensures NonDegenerate(TableTriangle(t)) && CornersBelow(TableTriangle(t), 8)
  {
  }

  /** A list holding the table is a well-formed triangle list over 8 vertices. */
  lemma TableWellFormed(indices: seq<int>)
    requires ListsTable(indices)
    ensures WellFormed(indices, 8)
  {
    forall t: nat | 3 * t + 2 < |indices|
      ensures NonDegenerate(Corners(indices, t)) && CornersBelow(Corners(indices, t), 8)
    {
      TableTrianglesWellFormed(t);
    }
    InRangeByTriangles(indices, 8);
  }

  /** A triangle of the table that has vertex v as a corner. */
  function CornerTriangle(v: int): (t: int)
    requires 0 <= v < 8
    ensures 0 <= t < 12 && Mentions(TableTriangle(t), v)
  {
    match v
    case 0 => 1
    case 1 => 0
    case 2 => 2
    case 3 => 4
    case 4 => 3
    case 5 => 5
    case 6 => 1
    case _ => 0
  }

  /** A list holding the table references every one of the 8 vertices. */
  lemma TableUsesEveryVertex(indices: seq<int>)
    requires ListsTable(indices)
    ensures UsesEveryVertex(indices, 8)
  {
    forall v | 0 <= v < 8
      ensures v in indices
    {
      MentionedIsIndexed(indices, CornerTriangle(v), v);
    }
  }

  /** The primitive count of the draw call: twelve triangles, which uses
      every index. */
  function DrawPrimitiveCount(): (n: nat)
    ensures n == 12 && 3 * n == |CreateIndexBuffer()|
  {
    PrimitiveCount(|CreateIndexBuffer()|)
  }

  /** Two triangles split one quad along its diagonal: they are (a, b, c)
      and (c, d, a) for four distinct vertices a, b, c, d. */
  predicate SplitsQuad(first: Triangle, second: Triangle) {
    && second.a == first.c && second.c == first.a
    && NonDegenerate(first) && second.b != first.a && second.b != first.b && second.b != first.c
  }

  /** The cube face the f-th pair of triangles lies on, if its four corners
      share one. */
  function PairFace(f: int): Option<Face>
    requires 0 <= f < 6
  {
    var first, second := TableTriangle(2 * f), TableTriangle(2 * f + 1);
    SharedFace(Position(first.a), Position(first.b), Position(first.c), Position(second.b))
  }

  /** The face of pair f, in table order. */
  function FaceOf(f: int): Face {
    match f
    case 0 => Face(Y, -1.0)
    case 1 => Face(X, -1.0)
    case 2 => Face(Y, 1.0)
    case 3 => Face(X, 1.0)
    case 4 => Face(Z, 1.0)
    case _ => Face(Z, -1.0)
  }

  lemma PairFaceValue(f: int)
    requires 0 <= f < 6
    ensures PairFace(f) == Some(FaceOf(f))
  {
  }

  /** The twelve triangles pair up into the six faces of the cube: each pair
      splits a quad of four distinct corners on one face, and no two pairs
      lie on the same face. */
  lemma FacesPairUp()
    ensures forall f :: 0 <= f < 6 ==> SplitsQuad(TableTriangle(2 * f), TableTriangle(2 * f + 1)) && PairFace(f).Some?
    ensures forall f, g :: 0 <= f < g < 6 ==> PairFace(f) != PairFace(g)
  {
    forall f | 0 <= f < 6 {
      PairFaceValue(f);
    }
  }

  /** Triangle t is wound so that its right-hand-rule normal points out of
      the cube through the face of its pair. */
  predicate OutwardWound(t: int)
    requires 0 <= t < 12
  {
    var tri := TableTriangle(t);
    PointsOut(WindingNormal(Position(tri.a), Position(tri.b), Position(tri.c)), FaceOf(t / 2))
  }

  /** The pair on the face y = -1 is wound outwards. The two edge vectors of
      each triangle are given as constants, so that the cross product is
      evaluated on numbers. */
  lemma BottomFaceOutward()
    ensures OutwardWound(0) && OutwardWound(1)
  {
    OutwardByEdges(0, Vec3(0.0, 0.0, 2.0), Vec3(-2.0, 0.0, 2.0));
    OutwardByEdges(1, Vec3(0.0, 0.0, -2.0), Vec3(2.0, 0.0, -2.0));
  }

  /** With u and v the edge vectors of triangle t from its first corner,
      the triangle is wound outwards when u x v points out. */
  lemma OutwardByEdges(t: int, u: Vec3, v: Vec3)
    requires 0 <= t < 12
    requires Sub(Position(TableTriangle(t).b), Position(TableTriangle(t).a)) == u
    requires Sub(Position(TableTriangle(t).c), Position(TableTriangle(t).a)) == v
    requires PointsOut(Cross(u, v), FaceOf(t / 2))
    ensures OutwardWound(t)
  {
  }

  /** Where each directed edge of the table sits: `3t + e` for edge e of
      triangle t, -1 for a pair of vertices the table never joins that way.
      A lookup table independent of the triangle table, so that reading it
      back shows each directed edge occurs once. */
  function EdgeSlot(edge: Edge): int {
    match edge.from
    case 0 => (
      match edge.to
      case 1 => 27
      case 2 => 7
      case 3 => 26
      case 6 => 3
      case 7 => 2
      case _ => -1
    )
    case 1 => (
      match edge.to
      case 0 => 1
      case 3 => 28
      case 5 => 20
      case 7 => 21
      case _ => -1
    )
    case 2 => (
      match edge.to
      case 0 => 25
      case 3 => 13
      case 4 => 9
      case 6 => 8
      case _ => -1
    )
    case 3 => (
      match edge.to
      case 0 => 29
      case 1 => 19
      case 2 => 24
      case 4 => 14
      case 5 => 15
      case _ => -1
    )
    case 4 => (
      match edge.to
      case 2 => 12
      case 3 => 17
      case 5 => 33
      case 6 => 10
      case 7 => 32
      case _ => -1
    )
    case 5 => (
      match edge.to
      case 1 => 23
      case 3 => 18
      case 4 => 16
      case 7 => 34
      case _ => -1
    )
    case 6 => (
      match edge.to
      case 0 => 6
      case 2 => 11
      case 4 => 31
      case 7 => 4
      case _ => -1
    )
    case _ => (
      match edge.to
      case 0 => 5
      case 1 => 0
      case 4 => 35
      case 5 => 22
      case 6 => 30
      case _ => -1
    )
  }

  /** Reading the edges of triangle t back through EdgeSlot gives their own
      positions. */
  lemma EdgeSlotsOf(t: int)
    requires 0 <= t < 12
    ensures EdgeSlot(EdgeOf(TableTriangle(t), 0)) == 3 * t
    ensures EdgeSlot(EdgeOf(TableTriangle(t), 1)) == 3 * t + 1
    ensures EdgeSlot(EdgeOf(TableTriangle(t), 2)) == 3 * t + 2
  {
    if t < 6 {
      if t == 0 {} else if t == 1 {} else if t == 2 {} else if t == 3 {} else if t == 4 {} else {}
    } else {
      if t == 6 {} else if t == 7 {} else if t == 8 {} else if t == 9 {} else if t == 10 {} else {}
    }
  }

  /** The triangle across edge e of triangle t: the one holding the reverse
      edge. */
  function Across(t: int, e: int): int {
    match 3 * t + e
    case 0 => 7
    case 1 => 9
    case 2 => 1
    case 3 => 2
    case 4 => 10
    case 5 => 0
    case 6 => 1
    case 7 => 8
    case 8 => 3
    case 9 => 4
    case 10 => 10
    case 11 => 2
    case 12 => 3
    case 13 => 8
    case 14 => 5
    case 15 => 6
    case 16 => 11
    case 17 => 4
    case 18 => 5
    case 19 => 9
    case 20 => 7
    case 21 => 0
    case 22 => 11
    case 23 => 6
    case 24 => 4
    case 25 => 2
    case 26 => 9
    case 27 => 0
    case 28 => 6
    case 29 => 8
    case 30 => 1
    case 31 => 3
    case 32 => 11
    case 33 => 5
    case 34 => 7
    case _ => 10
  }

  lemma AcrossHoldsReverse(t: int)
    requires 0 <= t < 12
    ensures forall e :: 0 <= e < 3 ==> 0 <= Across(t, e) < 12 && Across(t, e) != t
    ensures HasEdge(TableTriangle(Across(t, 0)), Reversed(EdgeOf(TableTriangle(t), 0)))
    ensures HasEdge(TableTriangle(Across(t, 1)), Reversed(EdgeOf(TableTriangle(t), 1)))
    ensures HasEdge(TableTriangle(Across(t, 2)), Reversed(EdgeOf(TableTriangle(t), 2)))
  {
    if t < 6 {
      AcrossHoldsReverseLow(t);
    } else {
      AcrossHoldsReverseHigh(t);
    }
  }

  lemma AcrossHoldsReverseLow(t: int)
    requires 0 <= t < 6
    ensures forall e :: 0 <= e < 3 ==> 0 <= Across(t, e) < 12 && Across(t, e) != t
    ensures HasEdge(TableTriangle(Across(t, 0)), Reversed(EdgeOf(TableTriangle(t), 0)))
    ensures HasEdge(TableTriangle(Across(t, 1)), Reversed(EdgeOf(TableTriangle(t), 1)))
    ensures HasEdge(TableTriangle(Across(t, 2)), Reversed(EdgeOf(TableTriangle(t), 2)))
  {
    if t == 0 {} else if t == 1 {} else if t == 2 {} else if t == 3 {} else if t == 4 {} else {}
  }

  lemma AcrossHoldsReverseHigh(t: int)
    requires 6 <= t < 12
    ensures forall e :: 0 <= e < 3 ==> 0 <= Across(t, e) < 12 && Across(t, e) != t
    ensures HasEdge(TableTriangle(Across(t, 0)), Reversed(EdgeOf(TableTriangle(t), 0)))
    ensures HasEdge(TableTriangle(Across(t, 1)), Reversed(EdgeOf(TableTriangle(t), 1)))
    ensures HasEdge(TableTriangle(Across(t, 2)), Reversed(EdgeOf(TableTriangle(t), 2)))
  {
    if t == 6 {} else if t == 7 {} else if t == 8 {} else if t == 9 {} else if t == 10 {} else {}
  }

  /** The twelve triangles bound a closed surface wound one way throughout:
      every directed edge occurs once, and its reverse occurs in another
      triangle. With the bottom pair wound outwards, the cube can be drawn
      with back-face culling. */
  lemma WindingConsistent()
    ensures NoRepeatedEdge(Triangles()) && Closed(Triangles())
  {
    var tris := Triangles();
    forall t, e, s, f |
      && 0 <= t < |tris| && 0 <= e < 3 && 0 <= s < |tris| && 0 <= f < 3
      && EdgeOf(tris[t], e) == EdgeOf(tris[s], f)
      ensures t == s && e == f
    {
      assert tris[t] == TableTriangle(t) && tris[s] == TableTriangle(s);
      EdgeSlotsOf(t);
      EdgeSlotsOf(s);
      assert e == 0 || e == 1 || e == 2;
      assert f == 0 || f == 1 || f == 2;
    }
    forall t, e | 0 <= t < |tris| && 0 <= e < 3
      ensures ReversedElsewhere(tris, t, e)
    {
      AcrossHoldsReverse(t);
      assert e == 0 || e == 1 || e == 2;
      var s := Across(t, e);
      assert tris[t] == TableTriangle(t) && tris[s] == TableTriangle(s);
      assert 0 <= s < |tris| && s != t && HasEdge(tris[s], Reversed(EdgeOf(tris[t], e)));
    }
  }
}
