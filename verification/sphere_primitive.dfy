/** The sphere primitive's construction as the constructor performs it: the
    tessellation check, the segment derivation, and the loops that fill the
    vertex and index arrays through a write cursor. Vertex positions, normals
    and texture coordinates are floating-point trigonometry and are not
    modelled; each vertex is identified by its slot on the sphere. */
module SpherePrimitive {
  import opened TriangleList
  import opened SphereLayout

  /** Why construction stops: a tessellation below 3 is rejected outright;
      Int32Overflow stands for a buffer size whose 32-bit computation wraps,
      after which allocation or the filling loops throw; TessellationTooLarge
      is the corrected constructor's 16-bit check. */
  datatype SphereError = TessellationTooSmall | Int32Overflow | TessellationTooLarge

  datatype Result<T> = Success(value: T) | Failure(error: SphereError)

  datatype Sphere = Sphere(vertical: int, horizontal: int, vertices: seq<Slot>, indices: seq<int>)

  /** Largest tessellation whose vertex count fits a 16-bit index buffer. */
  const MaxTessellation: int := 181

  /** Largest value of a C# `int`. */
  const Int32Max: int := 0x7FFF_FFFF

  /** Largest tessellation whose index count `12t(t - 1)` fits an `int`. */
  const MaxInt32Tessellation: int := 13377

  /** Stores a vertex at the cursor and advances the cursor. */
  method AddVertex(vertices: seq<Slot>, slot: Slot, index: int) returns (written: seq<Slot>, next: int)
    requires 0 <= index < |vertices|
    ensures |written| == |vertices| && next == index + 1
    ensures written[index] == slot
    ensures forall k :: 0 <= k < |vertices| && k != index ==> written[k] == vertices[k]
  {
    written := vertices[index := slot];
    next := index + 1;
  }

  /** The first `done` elements of the vertex array hold the slots
      SlotOf assigns to their positions. */
  ghost predicate VerticesPlaced(vertical: int, horizontal: int, vertices: seq<Slot>, done: int)
    requires Segments(vertical, horizontal)
  {
    && |vertices| == VertexCount(vertical, horizontal)
    && 0 <= done <= |vertices|
    && forall k :: 0 <= k < done ==> vertices[k] == SlotOf(vertical, horizontal, k)
  }

  /** Fills the vertex array: south pole, `vertical - 1` rings of
      `horizontal` vertices, north pole. The writes fill the array exactly and
      put every vertex at the position IndexOf assigns it. */
  method CreateVertexBuffer(vertical: int, horizontal: int) returns (vertices: seq<Slot>, currentVertex: int)
    requires Segments(vertical, horizontal)
    ensures |vertices| == VertexCount(vertical, horizontal)
    ensures currentVertex == |vertices|
    ensures forall k :: 0 <= k < |vertices| ==> vertices[k] == SlotOf(vertical, horizontal, k)
    ensures vertices[0] == SouthPole && vertices[|vertices| - 1] == NorthPole
  {
    vertices := seq(((vertical - 1) * horizontal) + 2, _ => Blank);
    currentVertex := 0;

    vertices, currentVertex := AddVertex(vertices, SouthPole, currentVertex);
    PlacedSouthPole(vertical, horizontal, vertices);

    vertices, currentVertex := AddRings(vertical, horizontal, vertices, currentVertex);

    ghost var before := vertices;
    vertices, currentVertex := AddVertex(vertices, NorthPole, currentVertex);
    PlacedNorthPole(vertical, horizontal, before, vertices);
  }

  /** The `vertical - 1` rings, one after another, after the south pole. */
  method AddRings(vertical: int, horizontal: int, vertices: seq<Slot>, currentVertex: int)
    returns (written: seq<Slot>, next: int)
    requires Segments(vertical, horizontal) && currentVertex == 1
    requires VerticesPlaced(vertical, horizontal, vertices, currentVertex)
    ensures next == VertexCount(vertical, horizontal) - 1
    ensures VerticesPlaced(vertical, horizontal, written, next)
  {
    written, next := vertices, currentVertex;
    var i := 0;
    while i < vertical - 1
      invariant 0 <= i <= vertical - 1
      invariant next == 1 + i * horizontal
      invariant VerticesPlaced(vertical, horizontal, written, next)
    {
      written, next := AddRing(vertical, horizontal, i, written, next);
      i := i + 1;
    }
  }

  lemma PlacedSouthPole(vertical: int, horizontal: int, vertices: seq<Slot>)
    requires Segments(vertical, horizontal)
    requires |vertices| == VertexCount(vertical, horizontal) && vertices[0] == SouthPole
    ensures VerticesPlaced(vertical, horizontal, vertices, 1)
  {
  }

  /** Storing the north pole after all rings completes the array. */
  lemma PlacedNorthPole(vertical: int, horizontal: int, before: seq<Slot>, after: seq<Slot>)
    requires Segments(vertical, horizontal)
    requires VerticesPlaced(vertical, horizontal, before, VertexCount(vertical, horizontal) - 1)
    requires |after| == |before| && after[|after| - 1] == NorthPole
    requires forall k :: 0 <= k < |after| - 1 ==> after[k] == before[k]
    ensures forall k :: 0 <= k < |after| ==> after[k] == SlotOf(vertical, horizontal, k)
    ensures after[0] == SouthPole
  {
  }

  /** Ring i: its `horizontal` vertices, column by column. */
  method AddRing(vertical: int, horizontal: int, i: int, vertices: seq<Slot>, currentVertex: int)
    returns (written: seq<Slot>, next: int)
    requires Segments(vertical, horizontal) && 0 <= i < vertical - 1
    requires currentVertex == 1 + i * horizontal
    requires VerticesPlaced(vertical, horizontal, vertices, currentVertex)
    ensures next == 1 + (i + 1) * horizontal
    ensures VerticesPlaced(vertical, horizontal, written, next)
  {
    MulMono(i + 1, vertical - 1, horizontal);
    written, next := vertices, currentVertex;
    var j := 0;
    while j < horizontal
      invariant 0 <= j <= horizontal
      invariant next == 1 + i * horizontal + j
      invariant VerticesPlaced(vertical, horizontal, written, next)
    {
      RingSlotAt(vertical, horizontal, i, j);
      ghost var before := written;
      written, next := AddVertex(written, Ring(i, j), next);
      assert forall k :: 0 <= k < next - 1 ==> written[k] == before[k];
      j := j + 1;
    }
  }

  /** Ring i column j sits at position `1 + i * horizontal + j`. */
  lemma RingSlotAt(vertical: int, horizontal: int, i: int, j: int)
    requires Segments(vertical, horizontal) && 0 <= i < vertical - 1 && 0 <= j < horizontal
    ensures 1 + i * horizontal + j < VertexCount(vertical, horizontal) - 1
    ensures SlotOf(vertical, horizontal, 1 + i * horizontal + j) == Ring(i, j)
  {
    IndexOfThenSlotOf(vertical, horizontal, Ring(i, j));
    RingPositionBounds(vertical, horizontal, i, j);
  }

  /** Stores an index, narrowed to 16 bits, at the cursor and advances it. */
  method AddIndex(indices: seq<int>, index: int, arrayIndex: int) returns (written: seq<int>, next: int)
    requires 0 <= arrayIndex < |indices|
    ensures |written| == |indices| && next == arrayIndex + 1
    ensures written[arrayIndex] == ToUShort(index)
    ensures forall k :: 0 <= k < |indices| && k != arrayIndex ==> written[k] == indices[k]
  {
    written := indices[arrayIndex := ToUShort(index)];
    next := arrayIndex + 1;
  }

  /** Three consecutive AddIndex calls: triangle t receives the 16-bit
      images of a, b, c and nothing before it changes. */
  method AddTriangle(indices: seq<int>, a: int, b: int, c: int, ghost t: int, currentIndex: int)
    returns (written: seq<int>, next: int)
    requires 0 <= t && currentIndex == 3 * t && currentIndex + 3 <= |indices|
    ensures |written| == |indices| && next == currentIndex + 3
    ensures Corners(written, t) == Stored(Triangle(a, b, c))
    ensures forall k :: 0 <= k < currentIndex ==> written[k] == indices[k]
  {
    written, next := AddIndex(indices, a, currentIndex);
    written, next := AddIndex(written, b, next);
    written, next := AddIndex(written, c, next);
  }

  /** The index count SpherePrimitive.cs allocates is the number of entries its
      three loops write, `3h + 6h(v - 2) + 3h`, three per triangle. */
  lemma {:induction false} IndexCountMatchesLoops(vertical: int, horizontal: int)
    requires Segments(vertical, horizontal)
    ensures IndexCount(vertical, horizontal)
         == 3 * horizontal + 6 * ((vertical - 2) * horizontal) + 3 * horizontal
    ensures IndexCount(vertical, horizontal) == 3 * TriangleCount(vertical, horizontal)
    ensures TriangleCount(vertical, horizontal) == 2 * horizontal * (vertical - 1)
    ensures (vertical - 2) * horizontal >= 0
  {
    MulMono(0, vertical - 2, horizontal);
    MulMono(vertical - 2, vertical - 2, horizontal);
    assert (vertical - 1) * horizontal == (vertical - 2) * horizontal + horizontal;
  }

  /** The first `done` triangles of the index array are in place. */
  ghost predicate Filled(vertical: int, horizontal: int, indices: seq<int>, done: int)
    requires Segments(vertical, horizontal)
  {
    && 0 <= done <= TriangleCount(vertical, horizontal)
    && 3 * done <= |indices|
    && forall t :: 0 <= t < done ==> Corners(indices, t) == Stored(TriangleOf(vertical, horizontal, t))
  }

  /** Writing past the first `done` triangles keeps them in place. */
  lemma FilledGrows(vertical: int, horizontal: int, before: seq<int>, after: seq<int>, done: int, more: int)
    requires Segments(vertical, horizontal) && Filled(vertical, horizontal, before, done)
    requires 0 <= more && done + more <= TriangleCount(vertical, horizontal)
    requires 3 * (done + more) <= |after|
    requires forall k :: 0 <= k < 3 * done ==> after[k] == before[k]
    requires forall t :: done <= t < done + more ==> Corners(after, t) == Stored(TriangleOf(vertical, horizontal, t))
    ensures Filled(vertical, horizontal, after, done + more)
  {
    forall t | 0 <= t < done + more
      ensures Corners(after, t) == Stored(TriangleOf(vertical, horizontal, t))
    {
      if t < done {
        assert Corners(after, t) == Corners(before, t);
      }
    }
  }

  /** Fills the index array: bottom fan, body quads as two triangles each,
      top fan. The writes fill the array exactly and triangle t is the
      16-bit image of TriangleOf(t). */
  method CreateIndexBuffer(vertical: int, horizontal: int) returns (indices: seq<int>, currentIndex: int)
    requires Segments(vertical, horizontal)
    ensures |indices| == IndexCount(vertical, horizontal) == 3 * TriangleCount(vertical, horizontal)
    ensures currentIndex == |indices|
    ensures forall t :: 0 <= t < TriangleCount(vertical, horizontal) ==>
              Corners(indices, t) == Stored(TriangleOf(vertical, horizontal, t))
  {
    IndexCountMatchesLoops(vertical, horizontal);
    var indexCount := (horizontal + ((vertical - 2) * horizontal)) * 6;
    indices := seq(indexCount, _ => 0);
    currentIndex := 0;

    indices, currentIndex := AddBottomFan(vertical, horizontal, indices, currentIndex);

    var i := 0;
    while i < vertical - 2
      invariant 0 <= i <= vertical - 2
      invariant |indices| == indexCount
      invariant currentIndex == 3 * (horizontal + 2 * (i * horizontal))
      invariant Filled(vertical, horizontal, indices, horizontal + 2 * (i * horizontal))
    {
      indices, currentIndex := AddBodyRow(vertical, horizontal, i, indices, currentIndex);
      i := i + 1;
    }

    indices, currentIndex := AddTopFan(vertical, horizontal, indices, currentIndex);
  }

  /** The fan joining the south pole to ring 0. */
  method AddBottomFan(vertical: int, horizontal: int, indices: seq<int>, currentIndex: int)
    returns (written: seq<int>, next: int)
    requires Segments(vertical, horizontal)
    requires |indices| == 3 * TriangleCount(vertical, horizontal) && currentIndex == 0
    ensures |written| == |indices| && next == 3 * horizontal
    ensures Filled(vertical, horizontal, written, horizontal)
  {
    IndexCountMatchesLoops(vertical, horizontal);
    written, next := indices, currentIndex;
    var i := 0;
    while i < horizontal
      invariant 0 <= i <= horizontal
      invariant |written| == |indices|
      invariant next == 3 * i
      invariant forall t :: 0 <= t < i ==> Corners(written, t) == Stored(TriangleOf(vertical, horizontal, t))
    {
      written, next := AddIndex(written, 0, next);
      written, next := AddIndex(written, 1 + (i + 1) % horizontal, next);
      written, next := AddIndex(written, 1 + i, next);
      i := i + 1;
    }
  }

  /** The quads between rings i and i + 1, each as two triangles. */
  method AddBodyRow(vertical: int, horizontal: int, i: int, indices: seq<int>, currentIndex: int)
    returns (written: seq<int>, next: int)
    requires Segments(vertical, horizontal) && 0 <= i < vertical - 2
    requires |indices| == 3 * TriangleCount(vertical, horizontal)
    requires currentIndex == 3 * (horizontal + 2 * (i * horizontal))
    requires Filled(vertical, horizontal, indices, horizontal + 2 * (i * horizontal))
    ensures |written| == |indices|
    ensures next == 3 * (horizontal + 2 * ((i + 1) * horizontal))
    ensures Filled(vertical, horizontal, written, horizontal + 2 * ((i + 1) * horizontal))
  {
    MulMono(i + 1, vertical - 2, horizontal);
    written, next := indices, currentIndex;
    var j := 0;
    while j < horizontal
      invariant 0 <= j <= horizontal
      invariant |written| == |indices|
      invariant next == 3 * (horizontal + 2 * (i * horizontal) + 2 * j)
      invariant Filled(vertical, horizontal, written, horizontal + 2 * (i * horizontal) + 2 * j)
    {
      written, next := AddBodyCell(vertical, horizontal, i, j, written, next);
      j := j + 1;
    }
  }

  /** Body cell (i, j): the two triangles of the quad between columns j and
      (j + 1) mod h of rings i and i + 1. */
  method AddBodyCell(vertical: int, horizontal: int, i: int, j: int, indices: seq<int>, currentIndex: int)
    returns (written: seq<int>, next: int)
    requires Segments(vertical, horizontal) && 0 <= i < vertical - 2 && 0 <= j < horizontal
    requires |indices| == 3 * TriangleCount(vertical, horizontal)
    requires currentIndex == 3 * (horizontal + 2 * (i * horizontal + j))
    requires Filled(vertical, horizontal, indices, horizontal + 2 * (i * horizontal + j))
    ensures |written| == |indices| && next == currentIndex + 6
    ensures Filled(vertical, horizontal, written, horizontal + 2 * (i * horizontal + j) + 2)
  {
    var nextI := i + 1;
    var nextJ := (j + 1) % horizontal;
    ghost var cell := horizontal + 2 * (i * horizontal + j);
    BodyCellCorners(vertical, horizontal, i, j, cell);
    written, next := AddTrianglePair(indices,
      1 + i * horizontal + j, 1 + i * horizontal + nextJ, 1 + nextI * horizontal + j,
      1 + i * horizontal + nextJ, 1 + nextI * horizontal + nextJ, 1 + nextI * horizontal + j,
      cell, currentIndex);
    FilledPair(vertical, horizontal, indices, written, cell);
  }

  /** Six consecutive AddIndex calls: triangles t and t + 1 receive the
      16-bit images of (a, b, c) and (d, e, f), and nothing before them
      changes. */
  method AddTrianglePair(indices: seq<int>, a: int, b: int, c: int, d: int, e: int, f: int,
                         ghost t: int, currentIndex: int)
    returns (written: seq<int>, next: int)
    requires 0 <= t && currentIndex == 3 * t && currentIndex + 6 <= |indices|
    ensures |written| == |indices| && next == currentIndex + 6
    ensures Corners(written, t) == Stored(Triangle(a, b, c))
    ensures Corners(written, t + 1) == Stored(Triangle(d, e, f))
    ensures forall k :: 0 <= k < currentIndex ==> written[k] == indices[k]
  {
    written, next := AddTriangle(indices, a, b, c, t, currentIndex);
    ghost var half := written;
    written, next := AddTriangle(written, d, e, f, t + 1, next);
    assert Corners(written, t) == Corners(half, t);
  }

  /** Writing triangles `done` and `done + 1` after the first `done` keeps
      them in place. */
  lemma FilledPair(vertical: int, horizontal: int, before: seq<int>, after: seq<int>, done: int)
    requires Segments(vertical, horizontal) && Filled(vertical, horizontal, before, done)
    requires done + 1 < TriangleCount(vertical, horizontal) && 3 * (done + 2) <= |after|
    requires forall k :: 0 <= k < 3 * done ==> after[k] == before[k]
    requires Corners(after, done) == Stored(TriangleOf(vertical, horizontal, done))
    requires Corners(after, done + 1) == Stored(TriangleOf(vertical, horizontal, done + 1))
    ensures Filled(vertical, horizontal, after, done + 2)
  {
    FilledOne(vertical, horizontal, before, after, done);
    FilledOne(vertical, horizontal, after, after, done + 1);
  }

  /** Writing triangle `done` after the first `done` keeps them in place. */
  lemma FilledOne(vertical: int, horizontal: int, before: seq<int>, after: seq<int>, done: int)
    requires Segments(vertical, horizontal) && Filled(vertical, horizontal, before, done)
    requires done < TriangleCount(vertical, horizontal) && 3 * (done + 1) <= |after|
    requires forall k :: 0 <= k < 3 * done ==> after[k] == before[k]
    requires Corners(after, done) == Stored(TriangleOf(vertical, horizontal, done))
    ensures Filled(vertical, horizontal, after, done + 1)
  {
    FilledGrows(vertical, horizontal, before, after, done, 1);
  }

  /** The fan joining the last ring to the north pole. */
  method AddTopFan(vertical: int, horizontal: int, indices: seq<int>, currentIndex: int)
    returns (written: seq<int>, next: int)
    requires Segments(vertical, horizontal)
    requires |indices| == 3 * TriangleCount(vertical, horizontal)
    requires currentIndex == 3 * (horizontal + 2 * ((vertical - 2) * horizontal))
    requires Filled(vertical, horizontal, indices, horizontal + 2 * ((vertical - 2) * horizontal))
    ensures |written| == |indices| && next == |indices|
    ensures Filled(vertical, horizontal, written, TriangleCount(vertical, horizontal))
  {
    written, next := indices, currentIndex;
    var vertexCount := ((vertical - 1) * horizontal) + 2;
    var start := horizontal + 2 * ((vertical - 2) * horizontal);
    var i := 0;
    while i < horizontal
      invariant 0 <= i <= horizontal
      invariant |written| == |indices|
      invariant next == 3 * (start + i)
      invariant Filled(vertical, horizontal, written, start + i)
    {
      ghost var before := written;
      TopFanPosition(vertical, horizontal, i);
      written, next := AddTriangle(written,
        vertexCount - 1, vertexCount - 2 - (i + 1) % horizontal, vertexCount - 2 - i,
        start + i, next);
      FilledOne(vertical, horizontal, before, written, start + i);
      i := i + 1;
    }
  }

  // ------------------------------------------------------------ construction

  /** The constructor as SpherePrimitive.cs writes it: a tessellation below 3
      is rejected before any buffer is built; otherwise the vertical count is
      the tessellation, the horizontal count twice that, and both arrays are
      filled. Buffer sizes are computed in 32-bit `int`: once the index count
      `12t(t - 1)` exceeds Int32Max it wraps, to a negative size that
      allocation rejects or to one too small for the loops that fill it, and
      the constructor throws. The vertex count wraps only later, at
      tessellation 32769. Indices are narrowed to 16 bits without a range
      check. */
  method CreateAsWritten(tessellation: int) returns (r: Result<Sphere>)
    ensures tessellation < 0x4000_0000 ==>
              (r.Failure? <==> tessellation < 3 || IndexCount(tessellation, 2 * tessellation) > Int32Max)
    ensures r.Failure? ==> (r.error == TessellationTooSmall <==> tessellation < 3)
    ensures r.Failure? ==> r.error != TessellationTooLarge
    ensures r.Success? ==>
      var s := r.value;
      && s.vertical == tessellation && s.horizontal == 2 * tessellation
      && |s.vertices| == VertexCount(s.vertical, s.horizontal)
      && (forall k :: 0 <= k < |s.vertices| ==> s.vertices[k] == SlotOf(s.vertical, s.horizontal, k))
      && |s.indices| == IndexCount(s.vertical, s.horizontal) <= Int32Max
      && (forall t :: 0 <= t < TriangleCount(s.vertical, s.horizontal) ==>
            Corners(s.indices, t) == Stored(TriangleOf(s.vertical, s.horizontal, t)))
  {
    if tessellation < 3 {
      return Failure(TessellationTooSmall);
    }
    var verticalSegments := tessellation;
    var horizontalSegments := tessellation * 2;
    if (horizontalSegments + ((verticalSegments - 2) * horizontalSegments)) * 6 > Int32Max {
      return Failure(Int32Overflow);
    }
    var vertices, _ := CreateVertexBuffer(verticalSegments, horizontalSegments);
    var indices, _ := CreateIndexBuffer(verticalSegments, horizontalSegments);
    r := Success(Sphere(verticalSegments, horizontalSegments, vertices, indices));
  }

  /** The index count fits an `int` exactly up to MaxInt32Tessellation, so
      as written every tessellation from 3 to 13377 builds a sphere and 13378
      is the first to overflow. */
  lemma {:induction false} Int32Limit(tessellation: int)
    requires tessellation >= 3
    ensures IndexCount(tessellation, 2 * tessellation) <= Int32Max <==> tessellation <= MaxInt32Tessellation
  {
    IndexCountMatchesLoops(tessellation, 2 * tessellation);
    if tessellation <= MaxInt32Tessellation {
      MulMono(tessellation - 1, MaxInt32Tessellation - 1, 2 * tessellation);
      MulMono(2 * tessellation, 2 * MaxInt32Tessellation, MaxInt32Tessellation - 1);
      assert (MaxInt32Tessellation - 1) * (2 * tessellation) == (2 * tessellation) * (MaxInt32Tessellation - 1);
    } else {
      MulMono(MaxInt32Tessellation, tessellation - 1, 2 * tessellation);
      MulMono(2 * (MaxInt32Tessellation + 1), 2 * tessellation, MaxInt32Tessellation);
      assert MaxInt32Tessellation * (2 * tessellation) == (2 * tessellation) * MaxInt32Tessellation;
    }
  }

  /** The vertex count fits a 16-bit index exactly up to MaxTessellation. */
  lemma {:induction false} SixteenBitLimit(tessellation: int)
    requires tessellation >= 3
    ensures VertexCount(tessellation, 2 * tessellation) <= UShortRange <==> tessellation <= MaxTessellation
  {
    if tessellation <= MaxTessellation {
      MulMono(tessellation - 1, MaxTessellation - 1, 2 * tessellation);
      MulMono(2 * tessellation, 2 * MaxTessellation, MaxTessellation - 1);
      assert (MaxTessellation - 1) * (2 * tessellation) == (2 * tessellation) * (MaxTessellation - 1);
    } else {
      MulMono(MaxTessellation, tessellation - 1, 2 * tessellation);
      MulMono(2 * (MaxTessellation + 1), 2 * tessellation, MaxTessellation);
      assert MaxTessellation * (2 * tessellation) == (2 * tessellation) * MaxTessellation;
    }
  }

  /** As written, tessellation 182 is accepted, its 65886 vertices overflow
      the 16-bit index range, and the last top-fan triangle is stored as
      (349, 348, 65521), two vertices of the bottom ring and one of the top
      ring, instead of (65885, 65884, 65521) around the north pole. */
  lemma WrappedIndexAt182()
    ensures VertexCount(182, 364) == 65886 && TriangleCount(182, 364) == 131768
    ensures TriangleOf(182, 364, 131767) == Triangle(65885, 65884, 65521)
    ensures Stored(TriangleOf(182, 364, 131767)) == Triangle(349, 348, 65521)
    ensures SlotOf(182, 364, 349) == Ring(0, 348) && SlotOf(182, 364, 65885) == NorthPole
  {
    TopFanPosition(182, 364, 363);
  }

  /** The constructor with the 16-bit bound checked: besides rejecting a
      tessellation below 3, it rejects one whose vertex count does not fit a
      16-bit index, so the narrowing cast never changes an index and the
      stored list is exactly the intended mesh. */
  method Create(tessellation: int) returns (r: Result<Sphere>)
    ensures r.Failure? <==> tessellation < 3 || tessellation > MaxTessellation
    ensures r.Failure? ==> (r.error == TessellationTooSmall <==> tessellation < 3)
    ensures r.Success? ==>
      var s := r.value;
      && s.vertical == tessellation && s.horizontal == 2 * tessellation
      && |s.vertices| == VertexCount(s.vertical, s.horizontal) <= UShortRange
      && (forall k :: 0 <= k < |s.vertices| ==> s.vertices[k] == SlotOf(s.vertical, s.horizontal, k))
      && |s.indices| == IndexCount(s.vertical, s.horizontal)
      && (forall t :: 0 <= t < TriangleCount(s.vertical, s.horizontal) ==>
            Corners(s.indices, t) == TriangleOf(s.vertical, s.horizontal, t))
      && WellFormed(s.indices, |s.vertices|)
      && UsesEveryVertex(s.indices, |s.vertices|)
  {
    if tessellation < 3 {
      return Failure(TessellationTooSmall);
    }
    var verticalSegments := tessellation;
    var horizontalSegments := tessellation * 2;
    SixteenBitLimit(tessellation);
    if ((verticalSegments - 1) * horizontalSegments) + 2 > UShortRange {
      return Failure(TessellationTooLarge);
    }
    var vertices, _ := CreateVertexBuffer(verticalSegments, horizontalSegments);
    var indices, _ := CreateIndexBuffer(verticalSegments, horizontalSegments);
    IntendedMeshProperties(verticalSegments, horizontalSegments, indices);
    r := Success(Sphere(verticalSegments, horizontalSegments, vertices, indices));
  }

  /** When every vertex has a 16-bit index, the stored list is the intended
      one, it is a well-formed triangle list and it uses every vertex. */
  lemma {:induction false} IntendedMeshProperties(vertical: int, horizontal: int, indices: seq<int>)
    requires Segments(vertical, horizontal) && VertexCount(vertical, horizontal) <= UShortRange
    requires |indices| == 3 * TriangleCount(vertical, horizontal)
    requires forall t :: 0 <= t < TriangleCount(vertical, horizontal) ==>
               Corners(indices, t) == Stored(TriangleOf(vertical, horizontal, t))
    ensures forall t :: 0 <= t < TriangleCount(vertical, horizontal) ==>
              Corners(indices, t) == TriangleOf(vertical, horizontal, t)
    ensures WellFormed(indices, VertexCount(vertical, horizontal))
    ensures UsesEveryVertex(indices, VertexCount(vertical, horizontal))
  {
    var vertexCount := VertexCount(vertical, horizontal);
    forall t | 0 <= t < TriangleCount(vertical, horizontal)
      ensures Corners(indices, t) == TriangleOf(vertical, horizontal, t)
      ensures NonDegenerate(Corners(indices, t))
      ensures CornersBelow(Corners(indices, t), vertexCount)
    {
      TriangleWellFormed(vertical, horizontal, t);
    }
    InRangeByTriangles(indices, vertexCount);
    forall k | 0 <= k < vertexCount
      ensures k in indices
    {
      EveryVertexIsCorner(vertical, horizontal, k);
      var t :| 0 <= t < TriangleCount(vertical, horizontal) && Mentions(TriangleOf(vertical, horizontal, t), k);
      MentionedIsIndexed(indices, t, k);
    }
  }

  /** The draw call's primitive count `IndexCount / 3` is exact: the index
      count is a multiple of three and the count is `2h(v - 1)` triangles. */
  lemma SpherePrimitiveCount(vertical: int, horizontal: int)
    requires Segments(vertical, horizontal)
    ensures IndexCount(vertical, horizontal) % 3 == 0
    ensures PrimitiveCount(IndexCount(vertical, horizontal)) == 2 * horizontal * (vertical - 1)
  {
    IndexCountMatchesLoops(vertical, horizontal);
  }
}
