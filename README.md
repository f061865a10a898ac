# HapticCube mesh deformation, modelled in Dafny

HapticCube lets a user grab a mesh with a haptic pen and pull it into shape.
This project models the deformation engine and the bookkeeping around it.

- **The OBJ loader.** It keeps three parallel per-vertex arrays: positions, colours and friction values derived from the colour. It keeps the face index lists. It builds a directed adjacency map `net` from the triangles.
- **Ring partition.** When anchored editing is switched on, the vertices are layered breadth-first around the vertex nearest the pen.
- **Deformation step.** Each tick of the force loop drags ring `n - 1` towards the pen by a factor that falls off with `n`.
- **Interaction state.** This covers the drag object, the touched flags, the editing and force flags, and the adjustable number of slices.

Modules, one file each:

- `Vectors` (`vectors.dfy`): three-component vectors over the reals. It also holds the squared distance.
- `Mesh` (`mesh.dfy`): `OBJLoader` as the class `ObjLoader`. The adjacency map is specified by the pure `Linked` and `LinkAll` folds, and the lemmas about the edges `generate()` records state its properties.
- `Rings` (`rings.dfy`): the ring-building block as `BuildRings` over an array of twelve sets. It is proved against the reference layering `Ring`/`Visited` and against plain reachability `Reach`.
- `Nearest` (`nearest.dfy`): `findNearestPoint`, proved to return the first index of least distance.
- `Deformation` (`deformation.dfy`): `getYVal`, the falloff scalar, and the total displacement factor `Gain` of a vertex.
- `Interaction` (`interaction.dfy`): all of the global state of `TangibleVirtualObject.cpp` that the core touches, as the class `Scene`. It holds the callbacks, the `'a'`, `'+'` and `'-'` keys, and the deformation tick.

Behaviour the model makes explicit:

- **`net` is directed.** `link(a, b)` only adds `b` to `net[a]`. An edge counts in both directions only when some triangle also lists it reversed (`Mesh.LinkAllEdges`).
- **The tick moves the root.** Pass `n` moves ring `n - 1`, so rings `0..numSlices-1` move, and ring 0 is the root itself. The root is displaced by `Falloff(1)` (`Interaction.Scene.DeformTick`).
- **All twelve rings are always rebuilt.** `numSlices` only says how many of them a tick uses.

## Model

| member | source | states |
|---|---|---|
| Vectors.SqDist | HapticCube/TangibleVirtualObject.cpp:882-886 | the squared distance is never negative, is zero between equal points and positive between distinct ones |
| Vectors.Square | HapticCube/TangibleVirtualObject.cpp:882-886 | pow(difference, 2) for each coordinate is never negative and is zero exactly when the difference is |
| Mesh.Linked | HapticCube/objloader.cpp:230-232 | link(a, b) adds b to net[a], adds key a, leaves every other key's set as it was, and changes nothing when b is already in net[a] |
| Mesh.LinkTriangleAt | HapticCube/objloader.cpp:224-226 | after the three links of a triangle, b is in net[a] exactly when it was before or (a, b) is one of the triangle's cyclic edges |
| Mesh.LinkAllEdges | HapticCube/objloader.cpp:221-228 | after linking a triangle list, b is in net[a] exactly when it was before or some triangle has (a, b) as a cyclic edge |
| Mesh.LinkAllKeys | HapticCube/objloader.cpp:221-228 | after linking a triangle list, a is a key exactly when it was before or is a corner of some triangle |
| Mesh.GenerateCovers | HapticCube/objloader.cpp:221-228 | for every triangle (a, b, c) in the list, b is in net[a], c in net[b] and a in net[c] |
| Mesh.GenerateFromEmpty | HapticCube/objloader.cpp:221-232 | starting from the empty map, every recorded successor comes from a triangle where the pair is cyclically consecutive, and it is a valid vertex index when all triangle indices are |
| Mesh.GenerateTargetsBelow | HapticCube/objloader.cpp:221-232 | starting from the empty map, when all triangle indices are below n, so is every recorded successor |
| Mesh.Friction | HapticCube/objloader.cpp:85-90 | friction is 0.9 exactly when red is strictly the largest component, 0.4 exactly when green is, and 0.1 otherwise |
| Mesh.FrictionScaleInvariant | HapticCube/objloader.cpp:79-90 | the friction of abs(p scaled by s > 0) equals that of abs(p), so normalising the position does not change it |
| Mesh.VertexColor | HapticCube/objloader.cpp:79-82 | the colour abs(normalise(p)) has non-negative components and selects the same friction as abs(p) |
| Mesh.VertexColorExample | HapticCube/objloader.cpp:77-90 | the vertex (3, 0, 4) gets factor 1/5, colour (0.6, 0, 0.8) and friction 0.1 |
| Mesh.ObjLoader.constructor | HapticCube/objloader.cpp:38-46 | a new loader has empty arrays and an empty adjacency map |
| Mesh.ObjLoader.AddVertex | HapticCube/objloader.cpp:77-90 | a vertex record appends the position, its colour abs(normalise(position)) and the friction of abs(position) to the three parallel arrays, which stay the same length and keep friction equal to Friction(colour) |
| Mesh.ObjLoader.AddFace | HapticCube/objloader.cpp:101-115 | a face record appends its three indices, each one less than parsed, to vIndices and nIndices and one triangle to tris, keeping vIndices laid out as three entries per triangle |
| Mesh.ObjLoader.DeformPoint | HapticCube/objloader.cpp:196-199 | vertex i becomes p; the length and all other vertices are unchanged, and the loader's invariant is kept |
| Mesh.ObjLoader.Link | HapticCube/objloader.cpp:230-232 | the map becomes Linked(old map, a, b) |
| Mesh.ObjLoader.Generate | HapticCube/objloader.cpp:221-228 | the map becomes the fold of link over the three edges of every triangle, in order |
| Mesh.ObjLoader.Load | HapticCube/objloader.cpp:53-134 | an unopenable file gives false and changes nothing; otherwise the vertex, colour and triangle lists gain the records' entries in order and generate() runs over all triangles |
| Rings.BuildRings | HapticCube/TangibleVirtualObject.cpp:268-289 | all twelve rings are rebuilt: ring n equals the reference layer Ring(net, root, n), so ring 0 is {root}, and the rings are pairwise disjoint |
| Rings.FillRing | HapticCube/TangibleVirtualObject.cpp:277-288 | ring n becomes the successors of ring n - 1 that are not yet traversed, and the traversed set grows by exactly ring n |
| Rings.AddSuccessors | HapticCube/TangibleVirtualObject.cpp:280-287 | every successor of one parent not yet traversed joins ring n and the traversed set; the other rings are unchanged |
| Rings.RingsDisjoint | HapticCube/TangibleVirtualObject.cpp:268-289 | distinct rings share no vertex, so the first ring to reach a vertex keeps it |
| Rings.RingParent | HapticCube/TangibleVirtualObject.cpp:276-287 | every vertex of ring n >= 1 is a successor of a vertex of ring n - 1 and lies in no earlier ring |
| Rings.RingClosure | HapticCube/TangibleVirtualObject.cpp:276-287 | every successor of a vertex of ring n - 1 lies in one of rings 0..n |
| Rings.VisitedIsUnion | HapticCube/TangibleVirtualObject.cpp:268-287 | a vertex is traversed after ring m exactly when one of rings 0..m holds it |
| Rings.VisitedIsReach | HapticCube/TangibleVirtualObject.cpp:268-289 | the traversed set after ring m is exactly the set of vertices reachable from the root in at most m steps |
| Rings.RingsAreLayers | HapticCube/TangibleVirtualObject.cpp:268-289 | ring n >= 1 holds exactly the vertices reachable in n steps and not in fewer |
| Rings.RingMembersBelow | HapticCube/TangibleVirtualObject.cpp:268-289 | when the root and every recorded successor are below size, so is every ring member |
| Nearest.Distances | HapticCube/TangibleVirtualObject.cpp:882-886 | one non-negative distance per vertex |
| Nearest.FindNearestPoint | HapticCube/TangibleVirtualObject.cpp:877-894 | on a non-empty vertex list the result is an index whose distance is at most every other, and every smaller index is strictly farther |
| Nearest.FirstMinUnique | HapticCube/TangibleVirtualObject.cpp:887-890 | at most one index satisfies the first-minimum property, so the scan's answer is determined |
| Nearest.FirstMinUnderRoot | HapticCube/TangibleVirtualObject.cpp:886 | for every strictly increasing function on non-negative reals, such as sqrt, the first minimum of the transformed distances is the first minimum of the squared ones |
| Nearest.ExactMatch | HapticCube/TangibleVirtualObject.cpp:877-894 | when the point lies on vertex i, the chosen vertex equals the point, is no later than i, and no earlier vertex equals the point |
| Deformation.GetYVal | HapticCube/TangibleVirtualObject.cpp:707-728 | the base is always at least 3, and exceeds 3 exactly for 2..9 slices |
| Deformation.GetYValDecreasing | HapticCube/TangibleVirtualObject.cpp:707-728 | the base strictly decreases as the slice count runs from 2 to 10 |
| Deformation.Falloff | HapticCube/TangibleVirtualObject.cpp:816 | the scalar 1/(1+pow(yVal, n - numSlices/2)) lies strictly between 0 and 1 |
| Deformation.FalloffDecreasing | HapticCube/TangibleVirtualObject.cpp:816 | when pow grows with the exponent for a base above 1, later rings get a strictly smaller scalar |
| Deformation.Gain | HapticCube/TangibleVirtualObject.cpp:813-821 | a vertex's total displacement factor over passes 1..k is non-negative, and it is positive exactly when some ring 0..k-1 holds the vertex |
| Deformation.GainInRing | HapticCube/TangibleVirtualObject.cpp:813-821 | on disjoint rings, a member of ring n - 1 gets exactly Falloff(n) whatever number of later passes follow |
| Interaction.IndexOf | HapticCube/TangibleVirtualObject.cpp:908-915 | -1 exactly when no object has the id; otherwise the first position holding it |
| Interaction.TouchedAt | HapticCube/TangibleVirtualObject.cpp:693-705 | only the flag of the position IndexOf finds changes, ids and loaders are kept, and nothing changes on -1 |
| Interaction.Scene.constructor | HapticCube/TangibleVirtualObject.cpp:65-131 | eight slices, no drag object, every flag off, empty rings and buffer |
| Interaction.Scene.IndexOfObject | HapticCube/TangibleVirtualObject.cpp:908-915 | the scan returns IndexOf(objects, id), which is -1 exactly when no object matches |
| Interaction.Scene.ButtonDown | HapticCube/TangibleVirtualObject.cpp:650-662 | the drag object becomes the pressed shape, the button is down, and each object is touched exactly when its id is that shape |
| Interaction.Scene.ButtonUp | HapticCube/TangibleVirtualObject.cpp:664-670 | no drag object, button up, editing and force off, whatever the state before, so a repeat changes nothing |
| Interaction.Scene.Touch | HapticCube/TangibleVirtualObject.cpp:693-698 | sets touched on the IndexOf position only, nothing on -1 |
| Interaction.Scene.Untouch | HapticCube/TangibleVirtualObject.cpp:700-705 | clears touched on the IndexOf position only, nothing on -1 |
| Interaction.Scene.IncreaseSlices | HapticCube/TangibleVirtualObject.cpp:296-299 | adds one slice below 12 and does nothing at 12, so the count stays in 1..12 |
| Interaction.Scene.DecreaseSlices | HapticCube/TangibleVirtualObject.cpp:300-303 | removes one slice above 1 and does nothing at 1, so the count stays in 1..12 |
| Interaction.Scene.ToggleAnchoredEditing | HapticCube/TangibleVirtualObject.cpp:251-294 | editing always flips; force becomes on exactly when editing is now on and a drag object exists; then the buffer is the drag object's vertices, the root is their first nearest to the proxy, and the twelve rings are the layers around it; otherwise buffer, root and rings are untouched |
| Interaction.Scene.DisplaceRing | HapticCube/TangibleVirtualObject.cpp:814-821 | every member of the ring moves by dir times scalar in the buffer and is copied into the loader; every other entry of both is unchanged |
| Interaction.Scene.DisplaceRings | HapticCube/TangibleVirtualObject.cpp:813-823 | after passes 1..numSlices every buffer entry has moved by dir times its Gain, and the loader holds the moved position of every ring member in use |
| Interaction.Scene.TickReadyFromMesh | HapticCube/TangibleVirtualObject.cpp:813-821 | once the rings are the layers of a mesh whose triangles index its own vertices and whose map generate() built, every ring member a tick uses indexes both vertex lists, so DeformTick's precondition holds |
| Interaction.Scene.DeformTick | HapticCube/TangibleVirtualObject.cpp:796-823 | with the force on, the direction is target minus the root's position before the step; each member of ring n - 1, the root included, moves by it times Falloff(n); vertices outside rings 0..numSlices-1 stay; the drag loader gets every moved position and nothing else; with the force off nothing changes |

## Left out

- Rendering, the GLUT/OpenGL code, the haptic SDK calls and the device and force I/O (`hdGetDoublev`, `hdSetDoublev`, the spring force output and the error branches after the tick) are not modelled. The local target point of the tick and the local proxy position for `'a'` are parameters.
- The matrix work that turns world positions into object-local ones, the drag transform update, and the initial proxy, device and anchor captures of `'a'` are left out. `gStartProxyTransform` and `gInitialObjTransform` in the button-down callback are also left out, because all of these are floating-point `hduMatrix` operations.
- Floating point is modelled as exact reals, so rounding, NaN and overflow do not appear.
- pow is a parameter required to be positive for a positive base. FalloffDecreasing also requires it to grow with the exponent for a base above 1.
- FindNearestPoint compares squared distances instead of their square roots. FirstMinUnderRoot shows every strictly increasing root picks the same index.
- The source leaves the result unset on an empty vertex list, so FindNearestPoint requires a non-empty list.
- Mesh.ObjLoader.Load takes the file as a list of already-tokenised records plus a flag saying whether it opened. Each vertex record carries 1 / |position|, the factor normalisation scales by, computed outside the model because the square root is not. AddVertex and Load require it to be that factor (Mesh.NormalFactor). The colour and friction are computed from it in AddVertex. A zero position, which the source normalises to NaN, gets the colour (0, 0, 0) and the same friction 0.1. The text heuristics, normals, `computeNormals` and the `unitize` rescaling of the vertices before `generate()` are not modelled.
- Mesh.ObjLoader.Load: `vIndices` and `nIndices` are described by the loader invariant, not by an ensures of their own.
- Reading `net[p]` during ring building inserts an empty entry for a missing key (std::map operator[]). BuildRings reads a copy of `net` through NetAt, so those empty entries are not recorded. They change no successor set.
- Interaction.Scene.ToggleAnchoredEditing requires the drag object to exist and to have at least one vertex when editing turns on. Interaction.Scene.DeformTick requires the drag object to exist and every ring member in use to index both vertex lists. The source performs neither lookup check. Interaction.Scene.TickReadyFromMesh derives the tick condition from a loaded mesh whose face indices are in range.
- The `touchedPoint` and friction update of the motion callback, `updateDragObjTransform`, and the `'t'` and `'e'` keys are not modelled.
- Shape ids are modelled as naturals and `gCurrentDragObj` as an integer. The unsigned, `long` and `int` conversions between them are not modelled.
- A `HapticObject` holds its `OBJLoader` by value, so no two objects share a mesh. In the model `loader` is a reference, and Scene.Valid does not require the loaders of different objects to be distinct. If two objects shared one, DeformTick would move both meshes.
- One tick is atomic. The force loop runs on the haptic thread and races with the keyboard and graphics code, and that is not modelled.
- Interaction.Scene.DisplaceRing takes the scalar once per pass. The source recomputes the same value for every vertex.
- Set iteration order (ascending in std::set) is not modelled. Each set is traversed in an arbitrary order, and every contract holds for every order.
