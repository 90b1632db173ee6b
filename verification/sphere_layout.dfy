/** The integer layout of the UV sphere, stated in closed form: which vertex
    sits at which array position and which three vertices form the t-th
    triangle. The loops of SpherePrimitive are proved to produce exactly this. */
module SphereLayout {
  import opened TriangleList

  /** Where a vertex sits on the sphere. `Blank` is an array element that no
      write has reached yet (C#'s zero-initialised struct). */
  datatype Slot = Blank | SouthPole | Ring(ring: int, column: int) | NorthPole

  /** The segment counts the constructor derives from an accepted
      tessellation: `vertical = tessellation >= 3`, `horizontal = 2 * vertical`. */
  predicate Segments(vertical: int, horizontal: int) {
    vertical >= 3 && horizontal == 2 * vertical
  }

  /** Length of the vertex array: two poles and `vertical - 1` rings. */
  function VertexCount(vertical: int, horizontal: int): int {
    (vertical - 1) * horizontal + 2
  }

  /** Length of the index array as SpherePrimitive.cs sizes it. */
  function IndexCount(vertical: int, horizontal: int): int {
    (horizontal + (vertical - 2) * horizontal) * 6
  }

  /** Triangles in the list: two fans of `horizontal` and two per body cell. */
  function TriangleCount(vertical: int, horizontal: int): int {
    horizontal + 2 * ((vertical - 2) * horizontal) + horizontal
  }

  /** Vertices that exist on the sphere of the given segment counts. */
  predicate ValidSlot(vertical: int, horizontal: int, s: Slot) {
    match s
    case Blank => false
    case SouthPole => true
    case NorthPole => true
    case Ring(i, j) => 0 <= i < vertical - 1 && 0 <= j < horizontal
  }

  // ---------------------------------------------------------------- arithmetic

  lemma DivModUnique(q: int, h: int, r: int)
    requires h > 0 && 0 <= r < h
    ensures (q * h + r) / h == q
    ensures (q * h + r) % h == r
  {
    var n := q * h + r;
    var d := n / h;
    assert d * h + n % h == n;
    if d > q {
      MulMono(q + 1, d, h);
    } else if d < q {
      MulMono(d + 1, q, h);
    }
  }

  /** A quotient below the bound, for a dividend below `bound * h`. */
  lemma QuotientBelow(n: int, h: int, bound: int)
    requires h > 0 && 0 <= n < bound * h
    ensures n / h < bound
  {
    var d := n / h;
    if d >= bound {
      MulMono(bound, d, h);
    }
  }

  lemma DivModBounds(n: int, h: int)
    requires h > 0 && n >= 0
    ensures 0 <= n / h && 0 <= n % h < h
  {
  }

  lemma MulMono(a: int, b: int, h: int)
    requires a <= b && h >= 0
    ensures a * h <= b * h
    ensures (a + 1) * h == a * h + h
  {
    assert b * h - a * h == (b - a) * h;
  }

  /** The ring vertex (i, j) lies strictly between the two poles. */
  lemma RingPositionBounds(vertical: int, horizontal: int, i: int, j: int)
    requires Segments(vertical, horizontal)
    requires 0 <= i < vertical - 1 && 0 <= j < horizontal
    ensures 1 <= 1 + i * horizontal + j < VertexCount(vertical, horizontal) - 1
  {
    MulMono(i, vertical - 2, horizontal);
    assert (vertical - 2) * horizontal + horizontal == (vertical - 1) * horizontal;
  }

  // ----------------------------------------------------------- vertex slots

  /** Array position of a vertex: south pole first, ring i column j at
      `1 + i * horizontal + j`, north pole last. */
  function IndexOf(vertical: int, horizontal: int, s: Slot): (k: int)
    requires Segments(vertical, horizontal) && ValidSlot(vertical, horizontal, s)
    ensures 0 <= k < VertexCount(vertical, horizontal)
  {
    match s
    case SouthPole => 0
    case NorthPole => VertexCount(vertical, horizontal) - 1
    case Ring(i, j) =>
      RingPositionBounds(vertical, horizontal, i, j);
      1 + i * horizontal + j
  }

  /** The vertex stored at array position k. */
  function SlotOf(vertical: int, horizontal: int, k: int): (s: Slot)
    requires Segments(vertical, horizontal) && 0 <= k < VertexCount(vertical, horizontal)
    ensures ValidSlot(vertical, horizontal, s)
    ensures s == SouthPole <==> k == 0
    ensures s == NorthPole <==> k == VertexCount(vertical, horizontal) - 1
  {
    if k == 0 then SouthPole
    else if k == VertexCount(vertical, horizontal) - 1 then NorthPole
    else
      QuotientBelow(k - 1, horizontal, vertical - 1);
      DivModBounds(k - 1, horizontal);
      Ring((k - 1) / horizontal, (k - 1) % horizontal)
  }

  /** Reading the slot at a position and asking for its position again gives
      the position back. */
  lemma {:induction false} SlotOfThenIndexOf(vertical: int, horizontal: int, k: int)
    requires Segments(vertical, horizontal) && 0 <= k < VertexCount(vertical, horizontal)
    ensures IndexOf(vertical, horizontal, SlotOf(vertical, horizontal, k)) == k
  {
    var s := SlotOf(vertical, horizontal, k);
    if s.Ring? {
      assert s.ring * horizontal + s.column == k - 1;
    }
  }

  /** Every vertex of the sphere is stored at exactly one position. */
  lemma {:induction false} IndexOfThenSlotOf(vertical: int, horizontal: int, s: Slot)
    requires Segments(vertical, horizontal) && ValidSlot(vertical, horizontal, s)
    ensures SlotOf(vertical, horizontal, IndexOf(vertical, horizontal, s)) == s
  {
    if s.Ring? {
      DivModUnique(s.ring, horizontal, s.column);
      RingPositionBounds(vertical, horizontal, s.ring, s.column);
    }
  }

  // -------------------------------------------------------------- triangles

  /** Bottom fan triangle i: the south pole and columns i, (i+1) mod h of ring 0. */
  function BottomFan(horizontal: int, i: int): Triangle
    requires horizontal > 0
  {
    Triangle(0, 1 + (i + 1) % horizontal, 1 + i)
  }

  /** The two triangles of body cell (i, j), between rings i and i + 1. */
  function BodyCell(horizontal: int, i: int, j: int, second: bool): Triangle
    requires horizontal > 0
  {
    var nextI := i + 1;
    var nextJ := (j + 1) % horizontal;
    if !second then
      Triangle(1 + i * horizontal + j, 1 + i * horizontal + nextJ, 1 + nextI * horizontal + j)
    else
      Triangle(1 + i * horizontal + nextJ, 1 + nextI * horizontal + nextJ, 1 + nextI * horizontal + j)
  }

  /** Top fan triangle i: the north pole and two positions counted down from
      the end of the last ring. */
  function TopFan(vertical: int, horizontal: int, i: int): Triangle
    requires horizontal > 0
  {
    var vertexCount := VertexCount(vertical, horizontal);
    Triangle(vertexCount - 1, vertexCount - 2 - (i + 1) % horizontal, vertexCount - 2 - i)
  }

  /** The t-th triangle of the list: bottom fan, then the body cells row by
      row (two triangles each), then the top fan. */
  function TriangleOf(vertical: int, horizontal: int, t: int): Triangle
    requires Segments(vertical, horizontal) && 0 <= t < TriangleCount(vertical, horizontal)
  {
    var body := 2 * ((vertical - 2) * horizontal);
    if t < horizontal then BottomFan(horizontal, t)
    else if t < horizontal + body then
      var q := (t - horizontal) / 2;
      BodyCell(horizontal, q / horizontal, q % horizontal, (t - horizontal) % 2 == 1)
    else TopFan(vertical, horizontal, t - horizontal - body)
  }

  /** Top fan triangle i is the one TriangleOf names after the body. */
  lemma TopFanPosition(vertical: int, horizontal: int, i: int)
    requires Segments(vertical, horizontal) && 0 <= i < horizontal
    ensures 0 <= horizontal + 2 * ((vertical - 2) * horizontal) + i < TriangleCount(vertical, horizontal)
    ensures TriangleOf(vertical, horizontal, horizontal + 2 * ((vertical - 2) * horizontal) + i)
         == TopFan(vertical, horizontal, i)
  {
    MulMono(0, vertical - 2, horizontal);
  }

  /** Triangle t of body cell (i, j) is the one TriangleOf names. */
  lemma BodyCellPosition(vertical: int, horizontal: int, i: int, j: int)
    requires Segments(vertical, horizontal)
    requires 0 <= i < vertical - 2 && 0 <= j < horizontal
    ensures horizontal + 2 * (i * horizontal + j) + 1 < horizontal + 2 * ((vertical - 2) * horizontal)
    ensures TriangleOf(vertical, horizontal, horizontal + 2 * (i * horizontal + j)) == BodyCell(horizontal, i, j, false)
    ensures TriangleOf(vertical, horizontal, horizontal + 2 * (i * horizontal + j) + 1) == BodyCell(horizontal, i, j, true)
  {
    MulMono(i + 1, vertical - 2, horizontal);
    var q := i * horizontal + j;
    DivModUnique(i, horizontal, j);
    BodyTriangleAt(vertical, horizontal, q, 0);
    BodyTriangleAt(vertical, horizontal, q, 1);
  }

  /** The corners of body cell (i, j) written out, for the triangle pair
      that starts at position `cell`. */
  lemma BodyCellCorners(vertical: int, horizontal: int, i: int, j: int, cell: int)
    requires Segments(vertical, horizontal)
    requires 0 <= i < vertical - 2 && 0 <= j < horizontal
    requires cell == horizontal + 2 * (i * horizontal + j)
    ensures 0 <= cell && cell + 1 < TriangleCount(vertical, horizontal)
    ensures TriangleOf(vertical, horizontal, cell)
         == Triangle(1 + i * horizontal + j, 1 + i * horizontal + (j + 1) % horizontal,
                     1 + (i + 1) * horizontal + j)
    ensures TriangleOf(vertical, horizontal, cell + 1)
         == Triangle(1 + i * horizontal + (j + 1) % horizontal,
                     1 + (i + 1) * horizontal + (j + 1) % horizontal, 1 + (i + 1) * horizontal + j)
  {
    BodyCellPosition(vertical, horizontal, i, j);
  }

  /** Triangle `horizontal + 2q + r` is triangle r of body cell q, counted
      row by row. */
  lemma BodyTriangleAt(vertical: int, horizontal: int, q: int, r: int)
    requires Segments(vertical, horizontal)
    requires 0 <= q < (vertical - 2) * horizontal && 0 <= r < 2
    ensures horizontal + 2 * q + r < TriangleCount(vertical, horizontal)
    ensures TriangleOf(vertical, horizontal, horizontal + 2 * q + r)
         == BodyCell(horizontal, q / horizontal, q % horizontal, r == 1)
  {
    var t := horizontal + 2 * q + r;
    assert t - horizontal == q * 2 + r;
    DivModUnique(q, 2, r);
  }

  // ------------------------------------------------- triangles as vertices

  datatype SlotTriangle = SlotTriangle(a: Slot, b: Slot, c: Slot)

  /** The t-th triangle named by the vertices it joins: the bottom fan joins
      the south pole to ring 0; body cell (i, j) joins columns j and j + 1 of
      rings i and i + 1; the top fan joins the north pole to the last ring,
      walking its columns downwards. Columns wrap around modulo `horizontal`. */
  function IntendedTriangle(vertical: int, horizontal: int, t: int): SlotTriangle
    requires Segments(vertical, horizontal) && 0 <= t < TriangleCount(vertical, horizontal)
  {
    var h := horizontal;
    var body := 2 * ((vertical - 2) * h);
    if t < h then SlotTriangle(SouthPole, Ring(0, (t + 1) % h), Ring(0, t))
    else if t < h + body then
      var q := (t - h) / 2;
      var i, j := q / h, q % h;
      if (t - h) % 2 == 0 then SlotTriangle(Ring(i, j), Ring(i, (j + 1) % h), Ring(i + 1, j))
      else SlotTriangle(Ring(i, (j + 1) % h), Ring(i + 1, (j + 1) % h), Ring(i + 1, j))
    else
      var i := t - h - body;
      SlotTriangle(NorthPole, Ring(vertical - 2, h - 1 - (i + 1) % h), Ring(vertical - 2, h - 1 - i))
  }

  /** The slots of a triangle that exist on the sphere, taken to positions. */
  function Positions(vertical: int, horizontal: int, st: SlotTriangle): Triangle
    requires Segments(vertical, horizontal)
    requires ValidSlot(vertical, horizontal, st.a) && ValidSlot(vertical, horizontal, st.b)
    requires ValidSlot(vertical, horizontal, st.c)
  {
    Triangle(IndexOf(vertical, horizontal, st.a), IndexOf(vertical, horizontal, st.b),
             IndexOf(vertical, horizontal, st.c))
  }

  /** The index arithmetic of the three loops names exactly the intended
      vertices: every triangle joins vertices that exist, in the stated rings. */
  lemma {:induction false} TriangleJoinsIntendedSlots(vertical: int, horizontal: int, t: int)
    requires Segments(vertical, horizontal) && 0 <= t < TriangleCount(vertical, horizontal)
    ensures var st := IntendedTriangle(vertical, horizontal, t);
      && ValidSlot(vertical, horizontal, st.a) && ValidSlot(vertical, horizontal, st.b)
      && ValidSlot(vertical, horizontal, st.c)
      && TriangleOf(vertical, horizontal, t) == Positions(vertical, horizontal, st)
  {
    var body := 2 * ((vertical - 2) * horizontal);
    if t < horizontal {
      DivModBounds(t + 1, horizontal);
    } else if t < horizontal + body {
      BodyJoinsIntendedSlots(vertical, horizontal, t);
    } else {
      TopFanJoinsIntendedSlots(vertical, horizontal, t);
    }
  }

  lemma BodyJoinsIntendedSlots(vertical: int, horizontal: int, t: int)
    requires Segments(vertical, horizontal)
    requires horizontal <= t < horizontal + 2 * ((vertical - 2) * horizontal)
    ensures var st := IntendedTriangle(vertical, horizontal, t);
      && ValidSlot(vertical, horizontal, st.a) && ValidSlot(vertical, horizontal, st.b)
      && ValidSlot(vertical, horizontal, st.c)
      && TriangleOf(vertical, horizontal, t) == Positions(vertical, horizontal, st)
  {
    var q := (t - horizontal) / 2;
    DivModBounds(t - horizontal, 2);
    assert q < (vertical - 2) * horizontal;
    QuotientBelow(q, horizontal, vertical - 2);
    DivModBounds(q, horizontal);
    DivModBounds(q % horizontal + 1, horizontal);
  }

  lemma TopFanJoinsIntendedSlots(vertical: int, horizontal: int, t: int)
    requires Segments(vertical, horizontal)
    requires horizontal + 2 * ((vertical - 2) * horizontal) <= t < TriangleCount(vertical, horizontal)
    ensures var st := IntendedTriangle(vertical, horizontal, t);
      && ValidSlot(vertical, horizontal, st.a) && ValidSlot(vertical, horizontal, st.b)
      && ValidSlot(vertical, horizontal, st.c)
      && TriangleOf(vertical, horizontal, t) == Positions(vertical, horizontal, st)
  {
    var i := t - horizontal - 2 * ((vertical - 2) * horizontal);
    DivModBounds(i + 1, horizontal);
    MulMono(vertical - 2, vertical - 2, horizontal);
    assert VertexCount(vertical, horizontal) - 2 == 1 + (vertical - 2) * horizontal + (horizontal - 1);
  }

  /** Distinct slots sit at distinct positions. */
  lemma {:induction false} IndexOfInjective(vertical: int, horizontal: int, s: Slot, s': Slot)
    requires Segments(vertical, horizontal)
    requires ValidSlot(vertical, horizontal, s) && ValidSlot(vertical, horizontal, s')
    requires s != s'
    ensures IndexOf(vertical, horizontal, s) != IndexOf(vertical, horizontal, s')
  {
    IndexOfThenSlotOf(vertical, horizontal, s);
    IndexOfThenSlotOf(vertical, horizontal, s');
  }

  /** Every triangle has three distinct corners, all inside the vertex array:
      the columns (j + 1) mod h and j differ because h >= 6, and adjacent
      rings hold different vertices. */
  lemma {:induction false} TriangleWellFormed(vertical: int, horizontal: int, t: int)
    requires Segments(vertical, horizontal) && 0 <= t < TriangleCount(vertical, horizontal)
    ensures var tri := TriangleOf(vertical, horizontal, t);
      && NonDegenerate(tri)
      && CornersBelow(tri, VertexCount(vertical, horizontal))
  {
    TriangleJoinsIntendedSlots(vertical, horizontal, t);
    IntendedSlotsDistinct(vertical, horizontal, t);
    var st := IntendedTriangle(vertical, horizontal, t);
    IndexOfInjective(vertical, horizontal, st.a, st.b);
    IndexOfInjective(vertical, horizontal, st.b, st.c);
    IndexOfInjective(vertical, horizontal, st.a, st.c);
  }

  /** The three vertices an intended triangle joins are distinct: the
      columns (j + 1) mod h and j differ, and adjacent rings differ. */
  lemma IntendedSlotsDistinct(vertical: int, horizontal: int, t: int)
    requires Segments(vertical, horizontal) && 0 <= t < TriangleCount(vertical, horizontal)
    ensures var st := IntendedTriangle(vertical, horizontal, t);
      st.a != st.b && st.b != st.c && st.a != st.c
  {
    var h := horizontal;
    var body := 2 * ((vertical - 2) * h);
    if t < h {
      DivModBounds(t + 1, h);
    } else if t < h + body {
      var q := (t - h) / 2;
      DivModBounds(q % h + 1, h);
    } else {
      DivModBounds(t - h - body + 1, h);
    }
  }

  /** Every vertex of the sphere is a corner of some triangle. */
  lemma {:induction false} EveryVertexIsCorner(vertical: int, horizontal: int, k: int)
    requires Segments(vertical, horizontal) && 0 <= k < VertexCount(vertical, horizontal)
    ensures exists t :: 0 <= t < TriangleCount(vertical, horizontal) && Mentions(TriangleOf(vertical, horizontal, t), k)
  {
    var s := SlotOf(vertical, horizontal, k);
    SlotOfThenIndexOf(vertical, horizontal, k);
    var t := CornerWitness(vertical, horizontal, s);
    assert Mentions(TriangleOf(vertical, horizontal, t), k);
  }

  /** A triangle that has the given vertex as a corner. */
  function CornerWitness(vertical: int, horizontal: int, s: Slot): (t: int)
    requires Segments(vertical, horizontal) && ValidSlot(vertical, horizontal, s)
    ensures 0 <= t < TriangleCount(vertical, horizontal)
    ensures Mentions(TriangleOf(vertical, horizontal, t), IndexOf(vertical, horizontal, s))
  {
    match s
    case SouthPole =>
      BottomFanCorner(vertical, horizontal, 0);
      0
    case NorthPole =>
      NorthPoleCorner(vertical, horizontal);
      TriangleCount(vertical, horizontal) - 1
    case Ring(i, j) =>
      if i == 0 then
        BottomFanCorner(vertical, horizontal, j);
        j
      else
        RingCorner(vertical, horizontal, i, j);
        horizontal + 2 * ((i - 1) * horizontal + j)
  }

  lemma BottomFanCorner(vertical: int, horizontal: int, j: int)
    requires Segments(vertical, horizontal) && 0 <= j < horizontal
    ensures j < TriangleCount(vertical, horizontal)
    ensures Mentions(TriangleOf(vertical, horizontal, j), 0)
    ensures Mentions(TriangleOf(vertical, horizontal, j), 1 + j)
  {
    MulMono(0, vertical - 2, horizontal);
  }

  lemma NorthPoleCorner(vertical: int, horizontal: int)
    requires Segments(vertical, horizontal)
    ensures TriangleCount(vertical, horizontal) > 0
    ensures Mentions(TriangleOf(vertical, horizontal, TriangleCount(vertical, horizontal) - 1),
                     VertexCount(vertical, horizontal) - 1)
  {
    var t := TriangleCount(vertical, horizontal) - 1;
    assert TriangleOf(vertical, horizontal, t) == TopFan(vertical, horizontal, horizontal - 1);
  }

  lemma RingCorner(vertical: int, horizontal: int, i: int, j: int)
    requires Segments(vertical, horizontal)
    requires 1 <= i < vertical - 1 && 0 <= j < horizontal
    ensures 0 <= horizontal + 2 * ((i - 1) * horizontal + j) < TriangleCount(vertical, horizontal)
    ensures Mentions(TriangleOf(vertical, horizontal, horizontal + 2 * ((i - 1) * horizontal + j)),
                     1 + i * horizontal + j)
  {
    BodyCellPosition(vertical, horizontal, i - 1, j);
    MulMono(0, i - 1, horizontal);
    assert BodyCell(horizontal, i - 1, j, false).c == 1 + i * horizontal + j;
  }
}
