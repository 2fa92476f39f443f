# Cell fracture, modelled in Dafny

This project models the logic of Blender's "Cell Fracture" add-on
(`object_fracture_cell`). The add-on shatters a mesh into convex cells around
a set of seed points, optionally re-fractures some of the fragments, and then
post-processes the fragments: interior vertex group, sharp edges and mass.

The model covers four parts.

- **The cell builder** (`points_as_bmesh_cells`, module `CellCalc`).
  - It builds the bounding box grown by a margin and its six boundary planes, and moves them into each seed's frame.
  - For each seed it walks the other seeds nearest first, adds one bisector plane per neighbour and asks the plane-intersection kernel for the cell's vertices.
  - It keeps only the planes the kernel reports as used, tightens the pruning bound, and emits a cell when the last kernel result is non-empty.
- **Point lists** (module `SetupPoints`): limiting a point source, random points in the bounding box, anchoring grease-pencil stroke points, and the "No points found" check in front of the cell builder.
- **Post-processing**:
  - interior tagging, sharp-edge marking and face unhiding over an abstract mesh (module `Interior`, a `CellMesh` class whose layers the methods update in place);
  - mass assignment, uniform or proportional to bounding-box volume (module `Mass`).
- **The recursion driver** (`main_object` and `main`, module `Driver`).
  - It chooses a fraction of the fragments under one of five policies, processes them from the highest index down, and fractures each one a level deeper.
  - It deletes the originals by index and enforces the fragment-count clamp.
  - `main` concatenates the fragments of every selected mesh.

Host code is a parameter:
- the plane-intersection kernel and `math.sqrt` (`CellCalc.Host`);
- the fracture of one object by the cell step and the booleans (`Driver.Scene.fracture`);
- the ordering keys (bounding-box diagonal, distance to the 3D cursor);
- every random choice. A shuffle is an arbitrary permutation, and a `random()` draw is a given fraction in [0, 1].

Shared modules:
- `Geometry`: vectors over the reals, and the host square root;
- `Sorting`: Python's stable `list.sort(key=...)` as an insertion sort, with `reverse`;
- `Wrappers`: `Option`, `Result` and the errors the add-on raises.

Where the add-on's code and its description differ, the model follows the
code.
- A grease-pencil stroke point is not moved to the midpoint between itself and its nearest point. It moves *away* from that point, to `lp + (lp - c) / 2`.
- The clamp is tested only after a fragment has been expanded. So with a clamp of 1 and a non-empty selection, one fragment is still expanded at level 1.
- `main_object` replaces `source_limit` by `recursion_source_limit` on recursive levels, and the model passes that limit to `Scene.fracture`. But `cell_fracture_objects` never reads `source_limit`: its limiting block is commented out (`object_fracture_cell/fracture_cell_setup.py:262-268`). So the setting has no effect on the fragments, and the model applies no global point limit.

## Model

| member | source | states |
|---|---|---|
| CellCalc.MinOf | object_fracture_cell/fracture_cell_calc.py:51-53 | `min` of a non-empty list is at most every entry and equal to one of them |
| CellCalc.MaxOf | object_fracture_cell/fracture_cell_calc.py:51-53 | `max` of a non-empty list is at least every entry and equal to one of them |
| CellCalc.Bounds | object_fracture_cell/fracture_cell_calc.py:47-53 | fails (empty `min`) exactly when there are no vertices; otherwise the box holds every vertex shrunk back by the margin and each face is touched by a vertex |
| CellCalc.BoundsOrdered | object_fracture_cell/fracture_cell_calc.py:47-53 | with a non-negative margin, min <= max on every axis and every vertex lies in the box |
| CellCalc.BoundaryPlanes | object_fracture_cell/fracture_cell_calc.py:56-63 | exactly six planes, each normal of length one along a coordinate axis; a point is inside all six half-spaces exactly when it lies in the box, so every normal points out of it |
| CellCalc.SeedPlanes | object_fracture_cell/fracture_cell_calc.py:69-74 | the seed's copy keeps the six normals; the seed is on the inner side of all six exactly when it lies in the box |
| CellCalc.LocalPlanes | object_fracture_cell/fracture_cell_calc.py:69-74 | the loop copies every boundary plane and raises its offset by the dot product of its normal with the seed |
| CellCalc.EffectiveScale | object_fracture_cell/fracture_cell_calc.py:39-42 | the scale is dropped exactly when it is absent or (1, 1, 1); otherwise it is kept |
| CellCalc.BisectorOf | object_fracture_cell/fracture_cell_calc.py:83-108 | without a scale the length is the distance to the neighbour and the normal its normalised direction; with a scale the normal is the normalised component-wise scaled direction; in both cases the offset is `-nlength / 2 + margin_cell` |
| CellCalc.BisectorEquidistant | object_fracture_cell/fracture_cell_calc.py:83-106 | without a scale and for a neighbour distinct from the seed, the plane is the perpendicular bisector moved by `margin_cell`: the length is positive, the normal has length one, and at every point the plane value is `margin_cell` plus the difference of the squared distances to the seed and to the neighbour over twice their distance; the midpoint lies at `margin_cell` and the neighbour at `nlength / 2 + margin_cell` |
| CellCalc.BisectorSeparates | object_fracture_cell/fracture_cell_calc.py:103-106 | with no margin, a point is inside the bisector's half-space exactly when it is no farther from the seed than from the neighbour |
| CellCalc.ScaledBisectorUnit | object_fracture_cell/fracture_cell_calc.py:86-106 | with a scale, the plane normal has length one whenever the scaled direction is not zero |
| Geometry.NormalizedUnit | object_fracture_cell/fracture_cell_calc.py:96-105 | `normalized()` of a non-zero vector divides it by its positive length and gives a vector of length one |
| CellCalc.Pick | object_fracture_cell/fracture_cell_calc.py:115-116 | the filtered list has one plane per used index, the plane at that index, in order |
| CellCalc.PickAllIsIdentity | object_fracture_cell/fracture_cell_calc.py:115-116 | when every plane is used the filter changes nothing, so the length test only saves work |
| CellCalc.MaxLengthSq | object_fracture_cell/fracture_cell_calc.py:120-124 | the scan's result is at least the 1e10 sentinel and every squared vertex length, and is the sentinel or one of them |
| CellCalc.PruneBoundFloor | object_fracture_cell/fracture_cell_calc.py:120-126 | the pruning bound after a non-empty kernel result is at least 2e5 |
| CellCalc.FarthestVertexBound | object_fracture_cell/fracture_cell_calc.py:120-126 | the loop computes twice the root of the largest squared length (from the sentinel), and the result is at least 2e5 |
| CellCalc.WalkFacts | object_fracture_cell/fracture_cell_calc.py:82-126 | the neighbour walk keeps the bound at least 2e5 and at most 6 + (neighbours added) planes; visits at most `len(points) - 1` neighbours; from every state it reaches, it processes the next neighbour exactly when that neighbour's `nlength` is within the bound in force, so it stops at the first neighbour beyond the bound; it stops only when the neighbours run out, the next one is beyond the bound, or the kernel returns no vertices; its vertices are non-empty exactly when it did not stop on an empty kernel result |
| CellCalc.NeighboursNearestFirst | object_fracture_cell/fracture_cell_calc.py:79-82 | the neighbour list is a permutation of the seeds in ascending squared distance |
| CellCalc.FirstNeighbourIsSeed | object_fracture_cell/fracture_cell_calc.py:78-82 | the skipped entry at sorted position 0 is at distance zero from the seed |
| CellCalc.SeedCellNeedsNeighbour | object_fracture_cell/fracture_cell_calc.py:82-131 | a seed yields vertices exactly when at least one plane was added and the last kernel result was non-empty; a seed with no neighbour yields none |
| CellCalc.CellsFollowSeeds | object_fracture_cell/fracture_cell_calc.py:67-132 | cells come in seed order, at most one per seed, each centred on its seed and with at least one vertex |
| CellCalc.SinglePointNoCells | object_fracture_cell/fracture_cell_calc.py:67-132 | a single point yields no cells |
| CellCalc.WalkNeighbours | object_fracture_cell/fracture_cell_calc.py:82-126 | the loop with its two `break`s computes the walk's final vertex list |
| CellCalc.BuildCell | object_fracture_cell/fracture_cell_calc.py:69-126 | one seed's body re-sorts the shared neighbour list by distance to the seed and leaves the walk's vertices |
| CellCalc.SeedLoop | object_fracture_cell/fracture_cell_calc.py:65-132 | the seed loop returns the cells of all seeds in order, carrying the re-sorted list from seed to seed |
| CellCalc.PointsAsBmeshCells | object_fracture_cell/fracture_cell_calc.py:24-135 | the whole builder: box error on no vertices, otherwise the cells of the seed loop |
| Geometry.LengthSq | object_fracture_cell/fracture_cell_calc.py:122 | a squared length is never negative |
| Geometry.LengthSqPositive | object_fracture_cell/fracture_cell_calc.py:84 | only the zero vector has squared length zero: any other vector's squared length is positive |
| Geometry.LengthSqSelf | object_fracture_cell/fracture_cell_calc.py:79 | a point is at squared distance zero from itself |
| Geometry.SqrtLowerBound | object_fracture_cell/fracture_cell_calc.py:125 | the root of at least 1e10 is at least 1e5 |
| Sorting.SortBySortsAndPermutes | object_fracture_cell/fracture_cell_calc.py:79 | `list.sort(key=...)` leaves the list sorted by the key and a permutation of itself |
| Sorting.InsertPermutes | object_fracture_cell/fracture_cell_calc.py:79 | one insertion step adds exactly the inserted element |
| Sorting.InsertSorted | object_fracture_cell/fracture_cell_calc.py:79 | one insertion step keeps a sorted list sorted |
| Sorting.SortedFirstIsLeast | object_fracture_cell/fracture_cell_setup.py:195-196 | the first entry of a sorted list has the least key |
| Sorting.Reverse | object_fracture_cell/__init__.py:131 | `reverse()`: same length, entry k is entry n-1-k |
| Sorting.ReversePermutes | object_fracture_cell/__init__.py:131 | reversing is a permutation |
| Sorting.PrefixKeysBelowSuffix | object_fracture_cell/__init__.py:114-127 | after an ascending sort, every key kept by the truncation is at most every key dropped |
| Sorting.ReversePrefixKeysAboveSuffix | object_fracture_cell/__init__.py:114-127 | after an ascending sort and a reverse, every key kept is at least every key dropped |
| SetupPoints.LimitSource | object_fracture_cell/fracture_cell_setup.py:32-39 | a non-zero limit below the length leaves exactly `limit` entries, all from the input; otherwise the list is returned unchanged |
| SetupPoints.UniformWithin | object_fracture_cell/fracture_cell_setup.py:124 | `uniform(a, b)` with a draw in [0, 1] lies in [a, b] |
| SetupPoints.RandomPointInBox | object_fracture_cell/fracture_cell_setup.py:123-125 | a random point lies in the vertices' box and is tagged RANDOM |
| SetupPoints.RandomPoints | object_fracture_cell/fracture_cell_setup.py:112-128 | fails exactly when there are no vertices; otherwise exactly `source_random` points, one per draw, each tagged RANDOM and inside the per-axis [min, max] |
| SetupPoints.DrawPoints | object_fracture_cell/fracture_cell_setup.py:122-126 | the loop appends one point per draw, in draw order |
| SetupPoints.AnchoredGrows | object_fracture_cell/fracture_cell_setup.py:193-202 | anchoring adds exactly one point per stroke point and loses none of the points already there |
| SetupPoints.PencilPointsGrow | object_fracture_cell/fracture_cell_setup.py:189-202 | with no points the stroke points are taken unchanged; in every case the list grows by one per stroke point and keeps its points |
| SetupPoints.AnchorMovesAway | object_fracture_cell/fracture_cell_setup.py:195-200 | the reference point is an entry of the current list nearest to the stroke point; the new point lies on the ray from it through the stroke point, at 1.5 times the stroke point's offset, with the stroke point's tag |
| SetupPoints.AnchorPencil | object_fracture_cell/fracture_cell_setup.py:189-202 | the loop of sorts and appends computes the anchored list |
| SetupPoints.CellFractureCells | object_fracture_cell/fracture_cell_setup.py:255-256 | an empty point list fails with "No points found"; otherwise the builder fails exactly when there are no vertices, and every cell is centred on one of the points |
| SetupPoints.CellsCentredOnPoints | object_fracture_cell/fracture_cell_setup.py:310-313 | the builder, called with `cell_scale` and `margin`, fails exactly on no vertices and centres every cell on a point |
| Interior.TouchedIff | object_fracture_cell/fracture_cell_setup.py:561-564 | the untagging loop reaches a vertex exactly when some visible face uses it |
| Interior.InteriorIff | object_fracture_cell/fracture_cell_setup.py:559-570 | a vertex gets weight 1.0 exactly when every face using it is hidden; a loose vertex is tagged |
| Interior.SharpIff | object_fracture_cell/fracture_cell_setup.py:578-580 | an edge's set of linked `hide` flags has two members exactly when it links a hidden and a visible face |
| Interior.HandledMeaning | object_fracture_cell/fracture_cell_setup.py:558-589 | with the group option a vertex's weight is 1.0 exactly when it is interior, otherwise unchanged; with sharp edges an edge's smooth flag is cleared exactly when it is sharp, other flags unchanged; every face ends shown; topology unchanged |
| Interior.ShownNotSharp | object_fracture_cell/fracture_cell_setup.py:588-589 | once every face is shown no edge is sharp |
| Interior.HandledIdempotent | object_fracture_cell/fracture_cell_setup.py:553-589 | handling a mesh twice gives the same mesh as handling it once |
| Interior.CellMesh.constructor | object_fracture_cell/fracture_cell_setup.py:554-556 | the mesh object holds the given layers |
| Interior.CellMesh.TagInterior | object_fracture_cell/fracture_cell_setup.py:559-570 | the tagging loops set weight 1.0 on the interior vertices and change nothing else |
| Interior.CellMesh.MarkSharpEdges | object_fracture_cell/fracture_cell_setup.py:578-580 | the edge loop clears `smooth` on the sharp edges and changes nothing else |
| Interior.CellMesh.ShowFaces | object_fracture_cell/fracture_cell_setup.py:588-589 | every face is shown and nothing else changes |
| Interior.CellMesh.Handle | object_fracture_cell/fracture_cell_setup.py:553-591 | one mesh's body leaves it handled, and well-formed |
| Interior.InteriorHandle | object_fracture_cell/fracture_cell_setup.py:544-592 | fails, changing nothing, exactly when no option is on; otherwise every listed mesh ends as if handled once, even when it is listed twice |
| Mass.LowCornerBounds | object_fracture_cell/fracture_cell_setup.py:635-647 | `min_co` is at most 1e6 and at most every corner coordinate; on each of x, y and z it is the start value 1e6 or the coordinate of some corner |
| Mass.HighCornerBounds | object_fracture_cell/fracture_cell_setup.py:635-647 | `max_co` is at least -1e6 and at least every corner coordinate; on each of x, y and z it is the start value -1e6 or the coordinate of some corner |
| Mass.ProductNonNegative | object_fracture_cell/fracture_cell_setup.py:649-655 | a product of non-negative extents is non-negative |
| Mass.ThreeFactors | object_fracture_cell/fracture_cell_setup.py:654 | the extent product is `x * y * z` |
| Mass.VolumeNonNegative | object_fracture_cell/fracture_cell_setup.py:634-657 | with at least one corner every extent is non-negative, so the volume is |
| Mass.ObjectVolume | object_fracture_cell/fracture_cell_setup.py:634-657 | the 8-corner loop yields the box volume of the first eight corners, never negative |
| Mass.SumScaled | object_fracture_cell/fracture_cell_setup.py:663-666 | scaling every volume by the factor scales the sum by it |
| Mass.SharesSumToMass | object_fracture_cell/fracture_cell_setup.py:660-666 | the volume shares add up to the mass |
| Mass.SharesProportional | object_fracture_cell/fracture_cell_setup.py:663-666 | each share times the total equals its volume times the mass |
| Mass.Masses | object_fracture_cell/fracture_cell_setup.py:625-668 | fails exactly for an unknown mode with mass on; off leaves every property; UNIFORM gives every fragment the mass; VOLUME gives each its share when the total is positive, and nothing otherwise |
| Mass.VolumeMassesSum | object_fracture_cell/fracture_cell_setup.py:660-666 | the volume masses assigned add up to the mass |
| Mass.VolumeProps | object_fracture_cell/fracture_cell_setup.py:660-666 | the assignment loop computes the volume-mode values |
| Mass.AssignMasses | object_fracture_cell/fracture_cell_setup.py:625-668 | the mass step over the fragments' corners computes the mass values of their volumes |
| Driver.KeepCount | object_fracture_cell/__init__.py:127 | the truncation keeps at most the list's length |
| Driver.KeepCountOfChance | object_fracture_cell/__init__.py:127 | for a chance in [0, 1] exactly `floor(chance * n)` pairs are kept |
| Driver.Ordered | object_fracture_cell/__init__.py:110-125 | every policy only reorders the pairs |
| Driver.EnumerateOnce | object_fracture_cell/__init__.py:108 | no pair occurs twice in the enumeration |
| Driver.AscendingWhenDistinct | object_fracture_cell/__init__.py:128 | sorting kept pairs back by index gives strictly increasing indices, each pairing a position with its fragment |
| Driver.SelectionDescending | object_fracture_cell/__init__.py:108-131 | the selection has the kept count of pairs, each naming its fragment, in strictly decreasing index order: the policy's kept prefix, or every fragment when the chance is 1 |
| Driver.PolicyKeepsFirst | object_fracture_cell/__init__.py:114-127 | SIZE_MIN keeps fragments no larger than any dropped one, SIZE_MAX no smaller, and the same for the distance to the cursor |
| Driver.ExpandFrom | object_fracture_cell/__init__.py:133-142 | the loop processes at most the whole selection, and never goes back before where it starts |
| Driver.SurvivorsPrefix | object_fracture_cell/__init__.py:140 | deleting only positions at or above m leaves the first m fragments in place |
| Driver.DeleteSurvivor | object_fracture_cell/__init__.py:140 | deleting a position below every earlier deletion is the same as removing it from the original list |
| Driver.ProcessedPrefixIntact | object_fracture_cell/__init__.py:134-140 | the identity assertion holds at every step: the pair about to be processed still names the fragment at its index |
| Driver.RoundStep | object_fracture_cell/__init__.py:134-142 | one step keeps the loop state: the processed positions removed, their fractures appended in order |
| Driver.ExpandProgress | object_fracture_cell/__init__.py:134-142 | every pair the loop expands had a successful fracture; a fracture that raises ends the loop with that pair's error; without an error a non-empty selection gets at least one expansion, and the loop stops short only when the two lists reach a non-zero clamp |
| Driver.ExpandClamp | object_fracture_cell/__init__.py:134-142 | the loop goes on past an expanded pair only while the two lists hold fewer fragments than a non-zero clamp |
| Driver.ExpandState | object_fracture_cell/__init__.py:133-142 | after the loop the list lacks exactly the processed positions (when originals are removed) and the new fragments are the processed pairs' fractures in order |
| Driver.LevelStepMeaning | object_fracture_cell/__init__.py:133-143 | one level raises the error of the first pair whose fracture raises, and otherwise gives the survivors followed by the processed pairs' fractures; every expanded pair's fracture succeeded; a non-empty selection expands at least once; the loop stops short on a clamp reached and goes past a pair only while the count is below the clamp |
| Driver.FullLevelReplacesAll | object_fracture_cell/__init__.py:106-143 | with chance 1, originals removed, no clamp and no fracture raising, a level replaces every fragment by its own fragments, last to first |
| Driver.Levels | object_fracture_cell/__init__.py:106-146 | when no level raises, at most `recursion` levels run, and fewer only when the list exceeds a non-zero clamp |
| Driver.LevelsUnfold | object_fracture_cell/__init__.py:106-146 | a level whose fracture raises ends the recursion with that error; a level whose list exceeds a non-zero clamp is the last; otherwise the next level runs on the new list |
| Driver.MainObject | object_fracture_cell/__init__.py:56-164 | the fragments are the object's fracture (recursive levels use the recursion source limit), followed at level 0 by the recursion levels; an error raised by the fracture or by any level is raised again; the interior step runs exactly when level 0 finishes with the group or sharp option on |
| Driver.ExpandLevel | object_fracture_cell/__init__.py:108-142 | one level's selection and expansion loop computes the level's outcome |
| Driver.MainSpec | object_fracture_cell/__init__.py:187-192 | fails exactly when some selected object fails: it is not a mesh ("No MESH object selected.") or its `main_object` raises |
| Driver.MainSpecFirstFailure | object_fracture_cell/__init__.py:187-192 | the error raised is that of the first selected object that fails; every object before it succeeds |
| Driver.MainSelected | object_fracture_cell/__init__.py:167-192 | the selection loop concatenates `main_object`'s fragments for every selected mesh, and stops with the error of the first object that is not a mesh or whose `main_object` raises |

## Left out

- Host operations (foreign calls): object, mesh and collection creation and linking; the boolean modifier and depsgraph work in `cell_fracture_boolean`; convex hull, remove doubles, dissolve, edge split and separate-loose; `origin_set`; redraw; `vertex_groups.new`; `show_edge_sharp`. One object's fracture is the `Scene.fracture` parameter of the driver. It returns fragments or the error `cell_fracture_objects` raises, such as "No points found"; which objects fail is not constrained further.
- The geometry of the plane-intersection kernel: nothing is assumed about the vertices it returns, only that its used-plane indices are in range and strictly increasing.
- Randomness is a parameter. This covers the shuffles, `uniform` draws, and the random unit vectors and ±0.0005 hull jitter of the cell step. No distribution is modelled.
- Floating point: all arithmetic is over exact reals. Rounding point positions to 4 decimals and the noise displacement in `cell_fracture_objects` are not modelled.
- CellCalc.BisectorOf: with a scale, nothing is proved about the re-weighted length `nlength * scalar` beyond its definition; the source expects `scalar` to be non-negative but does not check it, and whether it is depends on the scale's signs. A neighbour at the seed's own position, or a scale that zeroes the direction, gives the zero normal (what `normalized()` returns for a zero vector) and no bisector property is claimed for it.
- Gathering points from vertices, particles, children and grease pencil: the model starts from the point lists. The children path calls `points_from_verts` with two arguments and would raise a TypeError. The grease-pencil path reads an unbound `line_points` when there is no pencil.
- The operator's UI: properties, panel, drawing and registration.
- `main`'s selection and collection steps. The mass step is `Mass.AssignMasses`, over the fragments' world-space bounding-box corners.
- Driver.MainObject: the interior step is reported as a flag, not run on the fragments, because fragments are object identities here. `Interior.InteriorHandle` models the step itself.
- `split_edges` after marking sharp edges, with the apply option: it changes topology in host code.
- Sorting.SortBy: stability (equal keys keep their input order) is built into the insertion but not stated as a property.
