/** What the three primitives share: an index buffer is a flat list read three
    entries at a time as a triangle list, stored with 16-bit indices, and drawn
    with a primitive count of `IndexCount / 3`. */
module TriangleList {

  /** Number of values a 16-bit unsigned index can hold. */
  const UShortRange: int := 0x1_0000

  /** C#'s unchecked `(ushort)` conversion of an `int`: the low 16 bits, which
      is the Euclidean remainder modulo 2^16 for negative values as well. */
  function ToUShort(x: int): (r: int)
    ensures 0 <= r < UShortRange
    ensures (x - r) % UShortRange == 0
    ensures 0 <= x < UShortRange ==> r == x
  {
    x % UShortRange
  }

  /** The primitive count handed to DrawIndexedPrimitives: C# integer
      division, which agrees with Dafny's on a non-negative count. */
  function PrimitiveCount(indexCount: nat): (n: nat)
    ensures 3 * n <= indexCount < 3 * n + 3
    ensures indexCount % 3 == 0 ==> 3 * n == indexCount
  {
    indexCount / 3
  }

  datatype Triangle = Triangle(a: int, b: int, c: int)

  /** The t-th triangle of a triangle list. */
  function Corners(indices: seq<int>, t: nat): Triangle
    requires 3 * t + 2 < |indices|
  {
    Triangle(indices[3 * t], indices[3 * t + 1], indices[3 * t + 2])
  }

  /** The flat index list of a sequence of triangles, three entries each. */
  function Flatten(tris: seq<Triangle>): (indices: seq<int>)
    ensures |indices| == 3 * |tris|
  {
    if tris == [] then [] else [tris[0].a, tris[0].b, tris[0].c] + Flatten(tris[1..])
  }

  /** Reading a flattened list three entries at a time gives the triangles
      back. */
  lemma {:induction false} CornersOfFlatten(tris: seq<Triangle>, t: nat)
    requires t < |tris|
    ensures Corners(Flatten(tris), t) == tris[t]
  {
    if t > 0 {
      CornersOfFlatten(tris[1..], t - 1);
      var rest := Flatten(tris[1..]);
      assert Flatten(tris)[3 * t..3 * t + 3] == rest[3 * (t - 1)..3 * (t - 1) + 3];
    }
  }

  /** The triangle as stored in a 16-bit index buffer. */
  function Stored(tri: Triangle): Triangle {
    Triangle(ToUShort(tri.a), ToUShort(tri.b), ToUShort(tri.c))
  }

  predicate NonDegenerate(tri: Triangle) {
    tri.a != tri.b && tri.b != tri.c && tri.a != tri.c
  }

  predicate Mentions(tri: Triangle, v: int) {
    tri.a == v || tri.b == v || tri.c == v
  }

  predicate CornersBelow(tri: Triangle, vertexCount: int) {
    0 <= tri.a < vertexCount && 0 <= tri.b < vertexCount && 0 <= tri.c < vertexCount
  }

  /** Every index names a vertex of the buffer. */
  predicate InRange(indices: seq<int>, vertexCount: int) {
    forall k :: 0 <= k < |indices| ==> 0 <= indices[k] < vertexCount
  }

  /** No triangle of the list repeats a vertex. */
  ghost predicate NoDegenerateTriangle(indices: seq<int>) {
    forall t: nat :: 3 * t + 2 < |indices| ==> NonDegenerate(Corners(indices, t))
  }

  /** Every vertex of the buffer is referenced by some index. */
  predicate UsesEveryVertex(indices: seq<int>, vertexCount: int) {
    forall v :: 0 <= v < vertexCount ==> v in indices
  }

  /** A well-formed triangle list over `vertexCount` vertices. */
  ghost predicate WellFormed(indices: seq<int>, vertexCount: int) {
    && |indices| % 3 == 0
    && InRange(indices, vertexCount)
    && NoDegenerateTriangle(indices)
  }

  /** A directed edge between two vertex positions. */
  datatype Edge = Edge(from: int, to: int)

  function Reversed(edge: Edge): Edge {
    Edge(edge.to, edge.from)
  }

  /** Edge e (0, 1 or 2) of a triangle, in its winding order: a to b, b to c,
      c back to a. */
  function EdgeOf(tri: Triangle, e: int): Edge {
    if e == 0 then Edge(tri.a, tri.b) else if e == 1 then Edge(tri.b, tri.c) else Edge(tri.c, tri.a)
  }

  predicate HasEdge(tri: Triangle, edge: Edge) {
    EdgeOf(tri, 0) == edge || EdgeOf(tri, 1) == edge || EdgeOf(tri, 2) == edge
  }

  /** No directed edge is traversed twice: two triangles that share an edge
      run along it in opposite directions, so they are wound the same way. */
  ghost predicate NoRepeatedEdge(tris: seq<Triangle>) {
    forall t, e, s, f ::
      && 0 <= t < |tris| && 0 <= e < 3 && 0 <= s < |tris| && 0 <= f < 3
      && EdgeOf(tris[t], e) == EdgeOf(tris[s], f)
      ==> t == s && e == f
  }

  /** Some other triangle of the list runs along edge e of triangle t the
      other way. */
  ghost predicate ReversedElsewhere(tris: seq<Triangle>, t: int, e: int)
    requires 0 <= t < |tris|
  {
    exists s :: 0 <= s < |tris| && s != t && HasEdge(tris[s], Reversed(EdgeOf(tris[t], e)))
  }

  /** Every edge is shared: its reverse is an edge of another triangle, so
      the list bounds a closed surface. */
  ghost predicate Closed(tris: seq<Triangle>) {
    forall t, e :: 0 <= t < |tris| && 0 <= e < 3 ==> ReversedElsewhere(tris, t, e)
  }

  /** A list whose every triangle has its corners in range is in range. */
  lemma {:induction false} InRangeByTriangles(indices: seq<int>, vertexCount: int)
    requires |indices| % 3 == 0
    requires forall t: nat :: 3 * t + 2 < |indices| ==> CornersBelow(Corners(indices, t), vertexCount)
    ensures InRange(indices, vertexCount)
  {
    forall k | 0 <= k < |indices|
      ensures 0 <= indices[k] < vertexCount
    {
      var t := k / 3;
      assert 3 * t <= k < 3 * t + 3;
      assert 3 * t + 2 < |indices|;
      var tri := Corners(indices, t);
      assert indices[k] == tri.a || indices[k] == tri.b || indices[k] == tri.c;
    }
  }

  /** A vertex named by a triangle of the list is named by an index. */
  lemma MentionedIsIndexed(indices: seq<int>, t: nat, v: int)
    requires 3 * t + 2 < |indices| && Mentions(Corners(indices, t), v)
    ensures v in indices
  {
    if indices[3 * t] == v {
    } else if indices[3 * t + 1] == v {
    } else {
      assert indices[3 * t + 2] == v;
    }
  }
}
