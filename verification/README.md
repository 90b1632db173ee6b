# tgc-exam geometry and camera, in Dafny

A model of the four scene objects of the TGC.Exam MonoGame program:

- **SpherePrimitive**: the UV sphere. The constructor checks the tessellation and derives the segment counts. It then fills a vertex array (south pole, `vertical - 1` rings, north pole) and a 16-bit index array (bottom fan, body quads as two triangles each, top fan) through write cursors.
- **Cube**: the light cube. It has eight white corners and a 36-entry index table.
- **Quad**: the textured floor. It has four vertices on `y = 0` and two triangles.
- **FreeCamera**: a fly-through camera. Each update moves it with the keyboard and turns it with the mouse while the right button is held. It rebuilds its view only when something changed.

Modules, one per file:

- `Geometry` (`geometry.dfy`): exact vectors over `real`.
- `TriangleList` (`triangle_list.dfy`): what an index buffer is. Three entries make one triangle. An entry is narrowed with C#'s `(ushort)` cast. The primitive count is `IndexCount / 3`.
- `SphereLayout` (`sphere_layout.dfy`): closed-form reference definitions of the sphere. They say which vertex sits at which position, and which vertices triangle `t` joins.
- `SpherePrimitive` (`sphere_primitive.dfy`): the constructor's loops in their original shape, proved equal to the reference layout.
- `Cube` (`cube.dfy`), `Quad` (`quad.dfy`) and `FreeCamera` (`free_camera.dfy`).

The model does not compute sphere vertex positions. A sphere vertex is identified by its slot: `SouthPole`, `Ring(i, j)` or `NorthPole`. Camera trigonometry is the parameter `orient`, which maps yaw and pitch to the front, right and up directions. The camera's inputs are parameters: keyboard state, the two mouse samples and the elapsed time.

## Model

| member | source | states |
|---|---|---|
| TriangleList.ToUShort | TGC.Exam/SpherePrimitive.cs:143-147 | the stored index lies in [0, 65536), differs from the `int` by a multiple of 2^16, and equals it when it is already in range |
| TriangleList.PrimitiveCount | TGC.Exam/SpherePrimitive.cs:165 | the primitive count covers the index list to within two entries, and exactly when the count is a multiple of three |
| TriangleList.CornersOfFlatten | TGC.Exam/Cube.cs:53-72 | a table written as consecutive triples, read back three entries at a time, gives its triangles in order |
| SphereLayout.VertexCount | TGC.Exam/SpherePrimitive.cs:131 | the vertex array holds the two poles and `vertical - 1` rings of `horizontal` vertices, the size used for the vertex array (line 50) and the top fan |
| SphereLayout.IndexCount | TGC.Exam/SpherePrimitive.cs:101 | the index array is sized for `horizontal + (vertical - 2) * horizontal` quads of six entries each |
| SphereLayout.IndexOf | TGC.Exam/SpherePrimitive.cs:50-83 | every vertex of the sphere has a position inside the vertex array |
| SphereLayout.SlotOf | TGC.Exam/SpherePrimitive.cs:50-83 | every array position holds a vertex of the sphere; it is the south pole exactly at position 0 and the north pole exactly at the last position |
| SphereLayout.SlotOfThenIndexOf | TGC.Exam/SpherePrimitive.cs:54-83 | the vertex at a position is stored at that position (round trip from positions) |
| SphereLayout.IndexOfThenSlotOf | TGC.Exam/SpherePrimitive.cs:54-83 | a vertex's position holds that vertex (round trip from vertices), so the layout is a bijection |
| SphereLayout.IndexOfInjective | TGC.Exam/SpherePrimitive.cs:50-83 | distinct vertices occupy distinct array positions |
| SphereLayout.RingPositionBounds | TGC.Exam/SpherePrimitive.cs:60-80 | ring vertices sit strictly between the two poles in the array |
| SphereLayout.BottomFan | TGC.Exam/SpherePrimitive.cs:110-112 | bottom-fan triangle i joins the south pole (index 0) to ring-0 positions `1 + (i + 1) mod h` and `1 + i`, in that order |
| SphereLayout.BodyCell | TGC.Exam/SpherePrimitive.cs:119-128 | the two triangles of cell (i, j), with the index expressions of the inner loop and column j + 1 wrapping modulo h |
| SphereLayout.TopFan | TGC.Exam/SpherePrimitive.cs:135-137 | top-fan triangle i joins the north pole (the last position) to positions `vc - 2 - (i + 1) mod h` and `vc - 2 - i` |
| SphereLayout.TriangleOf | TGC.Exam/SpherePrimitive.cs:107-138 | the t-th triangle of the list: the h bottom-fan triangles, then the body cells row by row, two per cell, then the h top-fan triangles |
| SphereLayout.TopFanPosition | TGC.Exam/SpherePrimitive.cs:131-138 | the top fan's triangle i comes right after the bottom fan and all body cells |
| SphereLayout.BodyCellPosition | TGC.Exam/SpherePrimitive.cs:116-129 | body cell (i, j) holds triangles `h + 2(ih + j)` and the next one, counted row by row after the bottom fan |
| SphereLayout.BodyCellCorners | TGC.Exam/SpherePrimitive.cs:119-128 | the two triangles of body cell (i, j) have the corners the inner loop writes |
| SphereLayout.IntendedTriangle | TGC.Exam/SpherePrimitive.cs:107-138 | the reference the index arithmetic is checked against: triangle t named by the sphere vertices it joins (south pole and ring 0; rings i and i + 1; north pole and the last ring, columns counted downwards) |
| SphereLayout.TriangleJoinsIntendedSlots | TGC.Exam/SpherePrimitive.cs:107-138 | each triangle joins existing vertices: the south pole and two neighbours on ring 0; two neighbouring columns on adjacent rings; or the north pole and two neighbours on the last ring, columns wrapping around |
| SphereLayout.BodyJoinsIntendedSlots | TGC.Exam/SpherePrimitive.cs:115-129 | a body triangle joins columns j and j + 1 (mod h) of rings i and i + 1 |
| SphereLayout.TopFanJoinsIntendedSlots | TGC.Exam/SpherePrimitive.cs:131-138 | a top-fan triangle joins the north pole to two neighbouring columns of the last ring, counting columns downwards |
| SphereLayout.IntendedSlotsDistinct | TGC.Exam/SpherePrimitive.cs:107-138 | no triangle joins a vertex to itself |
| SphereLayout.TriangleWellFormed | TGC.Exam/SpherePrimitive.cs:107-138 | every triangle has three distinct corners, all inside the vertex array |
| SphereLayout.EveryVertexIsCorner | TGC.Exam/SpherePrimitive.cs:107-138 | every vertex, both poles included, is a corner of some triangle |
| SphereLayout.CornerWitness | TGC.Exam/SpherePrimitive.cs:107-138 | names a triangle that has the given vertex as a corner |
| SphereLayout.BottomFanCorner | TGC.Exam/SpherePrimitive.cs:107-113 | bottom-fan triangle j touches the south pole and column j of ring 0 |
| SphereLayout.NorthPoleCorner | TGC.Exam/SpherePrimitive.cs:131-138 | the last triangle touches the north pole |
| SphereLayout.RingCorner | TGC.Exam/SpherePrimitive.cs:116-129 | a vertex on ring i ≥ 1 is a corner of the cell below it |
| SpherePrimitive.AddVertex | TGC.Exam/SpherePrimitive.cs:88-97 | the vertex lands at the cursor, the cursor advances by one, and no other element changes |
| SpherePrimitive.CreateVertexBuffer | TGC.Exam/SpherePrimitive.cs:48-86 | the writes fill the array exactly, with the south pole first, the north pole last, and every position holding the vertex the layout assigns it |
| SpherePrimitive.AddRings | TGC.Exam/SpherePrimitive.cs:59-80 | after the south pole, the ring loop places all `vertical - 1` rings and leaves the cursor at the last position |
| SpherePrimitive.AddRing | TGC.Exam/SpherePrimitive.cs:68-79 | one pass of the inner loop places ring i column by column and keeps what came before |
| SpherePrimitive.PlacedSouthPole | TGC.Exam/SpherePrimitive.cs:56-57 | the first write puts the south pole at its position |
| SpherePrimitive.PlacedNorthPole | TGC.Exam/SpherePrimitive.cs:82-83 | the last write completes the array |
| SpherePrimitive.RingSlotAt | TGC.Exam/SpherePrimitive.cs:69-78 | the vertex the inner loop writes for (i, j) is the one the layout puts at that cursor position |
| SpherePrimitive.AddIndex | TGC.Exam/SpherePrimitive.cs:143-147 | the 16-bit image of the index lands at the cursor, the cursor advances by one, and no other element changes |
| SpherePrimitive.AddTriangle | TGC.Exam/SpherePrimitive.cs:122-137 | three consecutive writes store one triangle and leave earlier triangles alone |
| SpherePrimitive.AddTrianglePair | TGC.Exam/SpherePrimitive.cs:122-128 | six consecutive writes store two triangles and leave earlier triangles alone |
| SpherePrimitive.IndexCountMatchesLoops | TGC.Exam/SpherePrimitive.cs:101-138 | the allocated index count equals the number of entries the three loops write, three per triangle, `2h(v - 1)` triangles |
| SpherePrimitive.CreateIndexBuffer | TGC.Exam/SpherePrimitive.cs:99-141 | the writes fill the array exactly, and triangle t is the 16-bit image of the layout's triangle t |
| SpherePrimitive.AddBottomFan | TGC.Exam/SpherePrimitive.cs:107-113 | the first loop stores the first `h` triangles of the layout |
| SpherePrimitive.AddBodyRow | TGC.Exam/SpherePrimitive.cs:116-129 | one pass of the outer body loop stores the `2h` triangles of row i after the rows before |
| SpherePrimitive.AddBodyCell | TGC.Exam/SpherePrimitive.cs:117-129 | one pass of the inner body loop stores the two triangles of cell (i, j) |
| SpherePrimitive.FilledPair | TGC.Exam/SpherePrimitive.cs:122-128 | storing the next two triangles extends the correctly filled prefix by two |
| SpherePrimitive.AddTopFan | TGC.Exam/SpherePrimitive.cs:131-138 | the last loop stores the final `h` triangles and fills the array |
| SpherePrimitive.CreateAsWritten | TGC.Exam/SpherePrimitive.cs:27-46 | the constructor as written: it fails exactly for a tessellation below 3 (the argument error) or an index count beyond `int`; otherwise the vertical count is the tessellation and the horizontal count is twice that, every vertex is in place, and every triangle is the 16-bit image of the intended one |
| SpherePrimitive.Int32Limit | TGC.Exam/SpherePrimitive.cs:101-104 | the 32-bit index count fits exactly for tessellations up to 13377 |
| SpherePrimitive.SixteenBitLimit | TGC.Exam/SpherePrimitive.cs:102-145 | every vertex has a 16-bit index exactly for tessellations up to 181 |
| SpherePrimitive.WrappedIndexAt182 | TGC.Exam/SpherePrimitive.cs:131-145 | at tessellation 182 the narrowing cast turns the last top-fan triangle around the north pole into one joining two bottom-ring vertices to a top-ring vertex |
| SpherePrimitive.Create | TGC.Exam/SpherePrimitive.cs:27-46 | the constructor with the 16-bit bound enforced: it fails exactly outside [3, 181], and on success the stored list is the intended mesh, well-formed and using every vertex |
| SpherePrimitive.IntendedMeshProperties | TGC.Exam/SpherePrimitive.cs:99-147 | when every vertex fits 16 bits, the cast changes nothing, the list has no degenerate or out-of-range triangle, and it references every vertex |
| SpherePrimitive.SpherePrimitiveCount | TGC.Exam/SpherePrimitive.cs:165-166 | the draw call's `IndexCount / 3` is exact and counts `2h(v - 1)` triangles |
| Cube.Position | TGC.Exam/Cube.cs:37-44 | vertex k of the table is the corner of [-1, 1]^3 listed k-th |
| Cube.TableTriangle | TGC.Exam/Cube.cs:55-71 | triangle t of the index table is the t-th listed triple, two per face |
| Cube.CreateVertexBuffer | TGC.Exam/Cube.cs:31-48 | eight white vertices at eight distinct corners of [-1, 1]^3 |
| Cube.CreateIndexBuffer | TGC.Exam/Cube.cs:49-75 | 36 indices, with triple t being table triangle t; every index names one of the 8 vertices, no triangle repeats a corner, and every vertex is used |
| Cube.IndexTableTriangles | TGC.Exam/Cube.cs:53-72 | the flat list reads back as the twelve triangles of the table |
| Cube.TableTrianglesWellFormed | TGC.Exam/Cube.cs:53-72 | each of the twelve triangles has three distinct corners among the 8 vertices |
| Cube.TableWellFormed | TGC.Exam/Cube.cs:53-72 | a list holding the table is a well-formed triangle list over 8 vertices |
| Cube.CornerTriangle | TGC.Exam/Cube.cs:53-72 | names a table triangle that touches the given vertex |
| Cube.TableUsesEveryVertex | TGC.Exam/Cube.cs:53-72 | every one of the 8 vertices is referenced |
| Cube.DrawPrimitiveCount | TGC.Exam/Cube.cs:93-94 | the draw call's primitive count is 12 and covers every index |
| Cube.PairFaceValue | TGC.Exam/Cube.cs:37-71 | the four corners of the f-th pair of triangles lie on one face of the cube, the face listed for f |
| Cube.FacesPairUp | TGC.Exam/Cube.cs:53-72 | each consecutive pair of triangles splits a quad of four distinct corners on one face, and the six pairs cover six different faces |
| Cube.BottomFaceOutward | TGC.Exam/Cube.cs:37-56 | both triangles on the face y = -1 have their right-hand-rule normal pointing out of the cube |
| Cube.EdgeSlotsOf | TGC.Exam/Cube.cs:53-72 | every directed edge of triangle t is found at its own place in an independent edge table |
| Cube.AcrossHoldsReverse | TGC.Exam/Cube.cs:53-72 | for every edge of triangle t, another triangle runs along the same edge in reverse |
| Cube.WindingConsistent | TGC.Exam/Cube.cs:53-72 | the twelve triangles form a closed surface wound the same way throughout: no directed edge appears twice, and every edge's reverse appears in another triangle |
| Quad.CreateVertexBuffer | TGC.Exam/Quad.cs:28-43 | four distinct corners of the floor square on y = 0; each texture coordinate is `((x + 1) / 2, (1 - z) / 2)`, so the four texture coordinates are the distinct corners of the unit square |
| Quad.CreateIndexBuffer | TGC.Exam/Quad.cs:45-58 | six 16-bit indices forming triangles (1, 0, 3) and (3, 0, 2); every index is below 4, neither triangle repeats a corner, and every vertex is used |
| Quad.IndexListWellFormed | TGC.Exam/Quad.cs:47-54 | the six values form a well-formed triangle list over 4 vertices that uses each vertex |
| Quad.SplitAlongDiagonal | TGC.Exam/Quad.cs:49-54 | the two triangles share the diagonal 0–3, and each has its own third corner |
| Quad.WindingConsistent | TGC.Exam/Quad.cs:49-54 | the triangles cross the shared diagonal in opposite directions, and no directed edge repeats, so both face the same way |
| Quad.NormalsAgree | TGC.Exam/Quad.cs:31-54 | both triangles have the same normal, perpendicular to the floor |
| Quad.FirstNormal | TGC.Exam/Quad.cs:31-51 | the normal of triangle (1, 0, 3) is straight down |
| Quad.SecondNormal | TGC.Exam/Quad.cs:31-54 | the normal of triangle (3, 0, 2) is straight down |
| Quad.DrawCountMatchesIndices | TGC.Exam/Quad.cs:77 | the hard-coded primitive count 2 equals the six indices divided by three and uses them all |
| FreeCamera.ClampPitch | TGC.Exam/FreeCamera.cs:133-136 | the clamped pitch lies in [-89, 89]; an in-range pitch is unchanged, and one beyond a bound becomes that bound |
| FreeCamera.ClampIdempotent | TGC.Exam/FreeCamera.cs:133-136 | clamping twice is the same as clamping once |
| FreeCamera.ClampIsNearest | TGC.Exam/FreeCamera.cs:133-136 | the clamped pitch is the point of [-89, 89] nearest the input |
| FreeCamera.ClampMonotone | TGC.Exam/FreeCamera.cs:133-136 | clamping preserves the order of pitches |
| FreeCamera.UpdateCameraVectors | TGC.Exam/FreeCamera.cs:131-150 | after re-deriving the directions the pitch is in range and the directions come from yaw and the clamped pitch; position, yaw, view and mouse state are untouched |
| FreeCamera.CalculateView | TGC.Exam/FreeCamera.cs:51-54 | the view looks from the position one step along the front direction, with the camera's up; nothing else changes |
| FreeCamera.Create | TGC.Exam/FreeCamera.cs:29-49 | a new camera has yaw -90, pitch 0, speed 100 and sensitivity 2.5; it remembers the current mouse position and has a view that matches its position and directions |
| FreeCamera.ShiftMultipliesSpeed | TGC.Exam/FreeCamera.cs:72-74 | for a non-zero movement speed, the speed of an update is five times the movement speed exactly when LeftShift is down, and the movement speed itself otherwise |
| FreeCamera.CurrentMovementSpeed | TGC.Exam/FreeCamera.cs:72-74 | the speed of this update is five times the movement speed while LeftShift is down, otherwise the movement speed |
| FreeCamera.ProcessKeyboard | TGC.Exam/FreeCamera.cs:68-99 | the step reports a change exactly when A/Left, D/Right, W/Up or S/Down is down, and it changes only the position |
| FreeCamera.MoveByKeys | TGC.Exam/FreeCamera.cs:76-98 | the four key checks in source order, left, right, forward, back, each adding `speed * elapsedTime` along its direction when its letter or arrow key is down |
| FreeCamera.KeyboardMovesByDisplacement | TGC.Exam/FreeCamera.cs:72-98 | the keyboard moves the position by speed × elapsed time along the right direction for right minus left, and along the front direction for forward minus back; opposite keys cancel |
| FreeCamera.KeyboardDisplacement | TGC.Exam/FreeCamera.cs:76-98 | the four checks, applied in order, add up to the order-independent net displacement |
| FreeCamera.ProcessMouseMovement | TGC.Exam/FreeCamera.cs:101-129 | with the right button up, only the remembered mouse position changes; with it down, yaw decreases by dx × sensitivity × time, pitch increases by dy × sensitivity × time and is then clamped, and the directions are re-derived. Either way the remembered position becomes the second mouse sample, and a change is reported exactly when the button is down |
| FreeCamera.Update | TGC.Exam/FreeCamera.cs:57-66 | an update moves the camera by the keyboard displacement along the directions held before the turn, and it remembers the second mouse sample. On a change it rebuilds the view; with no movement key and no right button it changes nothing else. Movement speed and sensitivity never change. Yaw, pitch and directions change only with the right button; with it down, yaw decreases by dx × sensitivity × time, pitch increases by dy × sensitivity × time and is then clamped, and the directions are re-derived from them (lines 101-129) |
| FreeCamera.UpdateKeepsViewCurrent | TGC.Exam/FreeCamera.cs:57-66 | a camera whose view matches its position and directions still does after any update |
| FreeCamera.ViewRebuiltExactlyOnChange | TGC.Exam/FreeCamera.cs:60-65 | starting from an out-of-date view, an update leaves the view current exactly when a movement key or the right button is down, so the view is rebuilt on a change and only then |
| FreeCamera.UpdateKeepsPitchInRange | TGC.Exam/FreeCamera.cs:57-66 | the pitch stays within [-89, 89] across updates |

## Left out

- Sphere diameter and radius (SpherePrimitive.cs:35) and every floating-point vertex attribute: positions, normals and texture coordinates (SpherePrimitive.cs:62-76, 88-97). They are trigonometry in single precision. A sphere vertex is identified by its slot on the sphere instead.
- The graphics framework objects:
  - `VertexBuffer` and `IndexBuffer` construction, `SetData`, `SetVertexBuffer`, `Indices`;
  - the `BasicEffect` and its settings;
  - the `Draw` overloads (effect passes, world, view and projection, texture and colour parameters);
  - `Dispose`.
  These are calls into the framework. The arrays handed to them are modelled, and so is the primitive count each draw call passes.
- The colour passed to the cube's second `Draw` overload (Cube.cs:98-102) is an effect setting and is not modelled. The vertex colour `Color.White` is four integer channels at 255.
- SpherePrimitive.CreateAsWritten: for a tessellation of 2^30 or more, C# computes `tessellation * 2` in 32-bit arithmetic and it wraps. The model does not follow that wrap. Its failure guarantee is stated only below 2^30. Its success guarantee holds for every input.
- SpherePrimitive.Create: `TessellationTooLarge` has no counterpart in SpherePrimitive.cs. It is the corrected constructor's rejection of tessellations above 181 (see Findings).
- `Int32Overflow` stands for every way the C# constructor fails once a 32-bit buffer size wraps. Depending on the wrapped value, that is a negative array size or an index past the end of the array. The model does not tell these apart.
- Cube.BottomFaceOutward: outward winding is proved with numbers only for the pair on y = -1. For the other ten triangles it follows from Cube.WindingConsistent, because the surface is closed, connected and consistently wound. That connectivity argument is not carried out in Dafny. A per-triangle cross-product proof over the real-valued corner table is beyond the verifier's resource budget.
- FreeCamera: several parts are outside the model.
  - `UpdateCameraVectors` (FreeCamera.cs:140-149) uses trigonometry and normalisation. They are the `orient` parameter.
  - The view matrix is kept as its look-at arguments.
  - The projection matrix (FreeCamera.cs:45) is not modelled.
  - Mouse locking and the screen-centre constructor (FreeCamera.cs:32-36, 117-125) are not modelled. Their effect on the second mouse sample is covered by taking that sample as an input.
  - `Keyboard.GetState`, `Mouse.GetState` and `GameTime` are inputs.
- Float rounding: the camera's arithmetic and the quad's texture rule are exact over `real`. Single-precision rounding, infinities and NaN are not modelled.
- TGCGame.cs, the full-screen quad and the shaders are not part of this model.

## Findings

| source | as written | input that shows it | evidently intended | confidence | as-written member | corrected member |
|---|---|---|---|---|---|---|
| TGC.Exam/SpherePrimitive.cs:145 | every index goes through an unchecked `(ushort)` cast into a buffer declared with 16-bit elements (line 102). The constructor accepts any tessellation of 3 or more (line 29). | tessellation 182 has 65886 vertices. The last top-fan triangle (65885, 65884, 65521) is stored as (349, 348, 65521), which joins two bottom-ring vertices to one top-ring vertex. | reject a tessellation whose vertex count exceeds 65536, that is, above 181, so that no index changes when stored | not executed; latent, since the only caller (TGCGame.cs:106) passes 8 | SpherePrimitive.CreateAsWritten, SpherePrimitive.WrappedIndexAt182 | SpherePrimitive.Create, SpherePrimitive.IntendedMeshProperties |
