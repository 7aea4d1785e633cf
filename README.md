# Procedural dungeon generator: disjoint-set Kruskal, incremental triangulation and the two room pipelines

This project models the sequential core of a procedural dungeon generator. The generator scatters rooms around the centre of a canvas and lets a rigid-body solver push them apart. It then picks the large rooms, triangulates their positions, and joins them with corridors: the minimum spanning tree of the triangulation's edges plus a few extra edges that add loops.

The model covers four parts.

- **`kruskal.rb`**, as `Kruskal`: the disjoint-set graph.
  - `Segment` is a datatype. `Graph` is a class over two arrays: `group` (the label of each node) and `groupSet` (the members of each group).
  - `Graph.Merge` folds one group into the other. `Graph.Search` is the in-order greedy scan that accepts a segment iff its ends carry different labels.
  - Both are proved against value-level specifications. `Merged` and `Greedy` are those specifications. The invariant `Consistent` says the labels form a partition and two nodes share a label iff the accepted segments connect them. It also says the accepted segments form a forest and the non-empty groups plus the accepted segments number `n`.
- **`delaunay.rb`**, as `Triangles` and `Delaunay`: the triangle type and the Bowyer–Watson insertion.
  - A `Triangle` is its vertex list, sorted in the patched vector order. Two triangles are then equal exactly when their corner sets are equal, which is the source's `==`/`eql?`/`hash`.
  - The in-circle test is exact over `real`. It compares squared distances to the closed-formula circumcentre.
  - `Triangulation.Compute` loops over the points. Each pass scans the triangle set, deletes each triangle whose circumcircle contains the new point, and records its three candidates in a `map<Triangle, bool>`; the flag marks a duplicate. It then adds the candidates recorded once. A final filter drops every triangle that shares a corner with the bounding triangle.
  - Each step is proved equal to the set functions `InsertPoint`, `InsertAll` and `Finalize`.
- **`main.rb`**, as `Pipeline`: the circular-room generator.
  - `Generator.Update` is the frame's state machine. It picks the first applicable branch in this order: spanned (idle), triangulated (build corridors), some room selected (triangulate), all asleep (select rooms), otherwise a physics step.
  - The corridor branch is the chain `Candidates`, `SpanningTree`, `TreePaths`, `ExtraPaths`: edge pairs, node indexing, Kruskal over the length-sorted segments, deletion of the tree segments, and a sample of one eighth of the rest.
- **`geo_generator.rb`**, as `GeoPipeline`: the rectangular-room variant.
  - Room sides are multiples of 4, and positions are snapped to a 4-pixel grid.
  - Selection keeps the rooms that qualify by side and area. It starts over when fewer than three qualify; otherwise it activates the `num` largest of them.

Shared sequence and sorting helpers are in `Collections`, the point type and its order in `Geometry`, and the physics body in `Physics`.

How the model supplies what the program gets from outside:

- **Randomness**: each call of `rand`, `sample` and the point samplers is a nondeterministic choice inside the method that makes it (`:|`, `Collections.Sample`). The contract states the range the source's expression can produce.
- **Square roots**: √3 and the bounding radius are constructor parameters pinned by their squares.
- **Physics**:
  - a body is a position and an `asleep` flag;
  - the solver's step (`Relax`) writes arbitrary values into them;
  - a new body starts awake.
- **Iteration order**: iterating a Ruby `Set` follows an order the model does not fix. `Collections.Enumerate` and the `:|` picks in the scan loops leave it open.

`merge` is not small-to-large. The code (kruskal.rb:35-44) lets the group whose set is not larger keep its id, and relabels the members of the larger set. The model follows the code (`Kruskal.MergedDirection`). The outcome of `search` does not depend on the direction.

## Model

| member | source | states |
|---|---|---|
| Geometry.CompareIsTotalOrder | main.rb:11-13 | The patched `<=>` is zero exactly on equal points and antisymmetric. It is strict, total and transitive. `p` sorts before `q` iff `p.x > q.x`, or the x's are equal and `p.y > q.y`. |
| Triangles.InsertSorted | delaunay.rb:10 | Adding a point to a sorted vertex list keeps it sorted. The members become the old ones plus the point. The length grows by one unless the point was already present. |
| Triangles.SortedUnique | delaunay.rb:10 | Two sorted vertex lists with the same members are equal, so a sorted set is determined by its members. |
| Triangles.NewTriangleCorners | delaunay.rb:9-11 | `Triangle.new(a, b, c)` has a sorted vertex list whose members are exactly `a`, `b` and `c`, with at most three entries. |
| Triangles.NewTriangleWellFormed | delaunay.rb:9-11 | The triangle has three distinct corners iff `a`, `b` and `c` are pairwise distinct. |
| Triangles.NewTriangleEquality | delaunay.rb:13-23 | Two triangles are equal (the source's `==`, `eql?` and `hash`) iff they were built from the same corner set. |
| Triangles.NewTriangleRotations | delaunay.rb:9-23 | The order of the arguments does not matter: all six orders give the same triangle. |
| Triangles.AdjoinProperties | delaunay.rb:25-27 | `adjoin?` is symmetric. It holds iff some corner of one triangle equals some corner of the other. It is reflexive on triangles that have corners. |
| Triangles.Circumcircle | delaunay.rb:29-44 | There is no circle exactly when the formula's denominator `c` is zero (collinear corners). Otherwise the squared radius equals the squared distance from the centre to each of the three corners. |
| Triangles.Circumcenter | delaunay.rb:31-40 | The closed-formula centre is equally far from the three corners. |
| Triangles.CornersInCircumcircle | delaunay.rb:29-44 | The circumcircle of a non-degenerate triangle contains each of its corners (the closed `<=` test). |
| Delaunay.FanVertices | delaunay.rb:96-99 | The three candidates have corner sets {p, v1, v2}, {p, v2, v3} and {p, v3, v1}, over the removed triangle's listed corners v1, v2, v3. |
| Delaunay.FanCorners | delaunay.rb:96-99 | Each candidate contains the new point, and its other corners come from the removed triangle. |
| Delaunay.FanShape | delaunay.rb:96-99 | For a removed triangle with three distinct corners, none of them the new point, the three candidates each have three distinct corners and are pairwise different. |
| Delaunay.KeptExactlyOnce | delaunay.rb:91-103 | A candidate is added back iff exactly one removed triangle proposed it. |
| Delaunay.TallyStep | delaunay.rb:91-99 | Storing a removed triangle's three distinct candidates keeps the record exact. Each candidate proposed at least once is a key. Its flag is set iff it was proposed at least twice. |
| Delaunay.TalliedKept | delaunay.rb:103 | The unflagged keys of an exact record are exactly the candidates proposed once. |
| Delaunay.InsertPointSplit | delaunay.rb:93-103 | After inserting `p`, an old triangle remains iff its circumcircle does not contain `p`; the new triangles are all created after the scan, so none is tested against `p`. Each new one has `p` as a corner and is proposed by exactly one removed triangle. |
| Delaunay.InsertPointWellFormed | delaunay.rb:90-104 | One pass keeps every triangle's corners distinct. It also keeps every corner among the points so far, plus `p`. |
| Delaunay.InsertAllWellFormed | delaunay.rb:90-104 | The same holds over any list of distinct new points. |
| Delaunay.BoundingWellFormed | delaunay.rb:81-85 | The bounding triangle has three distinct corners. |
| Delaunay.Triangulation.constructor | delaunay.rb:77-87 | The triangle set starts as exactly the bounding triangle, whose corners form the point pool. |
| Delaunay.Triangulation.Compute | delaunay.rb:89-106 | The final set is `Finalize(InsertAll(old set, points))`. Every remaining triangle is well formed and shares no corner with the bounding triangle. |
| Delaunay.Triangulation.AddPoint | delaunay.rb:90-104 | One point's pass turns the set into `InsertPoint(old set, p)`: the survivors plus the candidates recorded once. |
| Delaunay.Triangulation.RemoveBad | delaunay.rb:93-101 | The scan leaves the old set minus the triangles whose circumcircle contains `p`. The record is exact for those triangles' candidates. |
| Delaunay.Triangulation.Visit | delaunay.rb:94-100 | The triangle is deleted iff the in-circle test holds for it. A deleted triangle's candidates are stored; otherwise the record is untouched. |
| Delaunay.Triangulation.StoreFan | delaunay.rb:92-99 | The three `store` calls, in the source's order. The record stays exact with the triangle added to the removed ones. |
| Kruskal.Graph.constructor | kruskal.rb:25-30 | `group[i] == i`, `groupSet[i] == {i}` and `mst == []`. The invariant holds. |
| Kruskal.InitialConsistent | kruskal.rb:25-30 | Singleton groups with no accepted segments satisfy the invariant. |
| Kruskal.MergedPartition | kruskal.rb:32-46 | After merge, the labels still form a partition iff the two nodes were in different groups. On equal groups, `clear` empties the shared set. |
| Kruskal.MergedDirection | kruskal.rb:35-45 | If `|A| <= |B|`, A's id survives, B's members are relabelled and B is emptied; otherwise the symmetric case. Nodes in neither group keep their label, and the other sets are unchanged. |
| Kruskal.MergedRelabels | kruskal.rb:42-44 | The folded members are node ids, the new labels are the relabelling by the kept id, and the two nodes end with the same label. |
| Kruskal.MergedJoinsExactly | kruskal.rb:32-46 | After merge, two nodes share a label iff they did before, or both were in one of the two merged groups. |
| Kruskal.MergedCount | kruskal.rb:32-46 | Merge reduces the number of non-empty groups by exactly one. |
| Kruskal.AcceptStep | kruskal.rb:50-53 | Accepting a segment whose ends carry different labels keeps the invariant, with the segment appended to `mst`. |
| Kruskal.ConsistentBound | kruskal.rb:48-56 | Under the invariant, `mst` is empty for no nodes and holds at most `n - 1` segments otherwise. |
| Kruskal.GreedyKeepsOrder | kruskal.rb:49-54 | The scan keeps the segments accepted before it. The segments it adds form an in-order subsequence of its input. |
| Kruskal.GreedySpans | kruskal.rb:48-56 | Afterwards the tree connects the two ends of every input segment. |
| Kruskal.GreedyForest | kruskal.rb:48-56 | Starting from a forest, the scan leaves a forest: no accepted segment joins two already connected nodes. |
| Kruskal.ForestDistinct | kruskal.rb:50-52 | A forest repeats no segment and has no segment from a node to itself. |
| Kruskal.Graph.Merge | kruskal.rb:32-46 | The arrays become the specification `Merged` of the old arrays. The two nodes end with the same label. The partition holds afterwards iff their labels differed before. |
| Kruskal.Graph.RelabelAll | kruskal.rb:42-44 | The label array becomes the relabelling of the old one. |
| Kruskal.Graph.Search | kruskal.rb:48-56 | `mst` becomes `Greedy(old mst, segments)`. After the scan: every input segment's ends share a label and are connected by `mst`; `mst` is a forest; the non-empty groups plus `|mst|` number `n`, so `|mst| <= n - 1`. |
| Collections.Uniq | main.rb:147 | `uniq`: the result repeats nothing, has exactly the input's members, and is an in-order subsequence of the input. |
| Collections.UniqKeepsFirst | main.rb:147 | `uniq` keeps each value at its first occurrence: the kept entries come in the order in which their values first occur in the input. |
| Collections.IndexOf | main.rb:151 | `index` returns the first position holding the element. |
| Collections.Without | main.rb:157 | Deleting a set of values keeps exactly the entries outside it. |
| Collections.WithoutPrefix | main.rb:154-159 | Deleting the tree segments one by one equals deleting them all at once. |
| Collections.WithoutSize | main.rb:154-159 | Deleting `k` distinct present values from a list without repeats shortens it by `k`. |
| Collections.SortBy | main.rb:153 | The result is ascending by the key and is a permutation of the input. |
| Collections.MultisetDistinct | geo_generator.rb:185 | A permutation of a list without repeats has none, so `sort_by` introduces no duplicate. |
| Collections.Last | geo_generator.rb:185 | `last(k)` is the final `min(k, size)` entries, in order. |
| Collections.Enumerate | main.rb:147 | Walking a set visits each member exactly once. |
| Collections.Sample | main.rb:160 | `sample(k)` over `n` entries draws `min(k, n)` distinct positions below `n`. |
| Physics.Body.constructor | main.rb:23-24 | A new body sits at the given position and is awake. |
| Pipeline.Room.constructor | main.rb:22-35 | The room's body is fresh, awake and placed at `pos`. The room has the given radius and is inactive. |
| Pipeline.Room.Activate | main.rb:45-47 | The room becomes active. |
| Pipeline.PairsMembers | main.rb:147 | `combination(2)` yields `(u, v)` iff `u` comes before `v` in the vertex list. |
| Pipeline.FlatPairsMembers | main.rb:147 | The flattened pairs are exactly the ordered corner pairs of the triangles. |
| Pipeline.EdgePairsAreEdges | main.rb:147 | After `uniq`, the pairs repeat nothing and are exactly the triangles' edges. |
| Pipeline.AddNodeKeeps | main.rb:149-150 | Adding a node keeps the list free of repeats and keeps the existing entries in place. The list gains exactly that node. |
| Pipeline.IndexStep | main.rb:148-152 | One pair's step keeps the indexing invariant. The node list is repeat-free, and its members are the ends so far. Each segment names its pair by index and carries its squared length. |
| Pipeline.Index | main.rb:148-152 | The nodes repeat nothing and are exactly the pairs' ends. Each segment `k` holds the indices of pair `k`'s ends and its squared length. Distinct pairs give distinct segments. |
| Pipeline.NamesInjective | main.rb:151 | Segments that name distinct pairs are distinct. |
| Pipeline.Candidates | main.rb:145-152 | The pairs are exactly the triangle edges, without repeats, and the nodes and segments index them as above. |
| Pipeline.SpanningTree | main.rb:153 | The tree is the greedy scan over the length-sorted segments. It is a forest without repeats, drawn from the segments. It connects the ends of every segment and has at most `|nodes| - 1` segments. |
| Pipeline.TreePaths | main.rb:154-159 | There is one path per tree segment, in order, between the nodes it names. The remaining list is the segments minus the tree, shorter by the tree's size. |
| Pipeline.ExtraPaths | main.rb:160-164 | One eighth of the remaining segments, rounded down, is drawn: distinct positions, each with its path. |
| Pipeline.Corridors | main.rb:154-164 | The corridors are the tree's paths followed by the sampled paths, and no sampled segment is a tree segment. |
| Pipeline.ActiveOnly | main.rb:165 | `select(&:active?)` keeps exactly the active rooms. |
| Pipeline.ActiveOnlyOrder | main.rb:165 | The kept rooms are an in-order subsequence and repeat none. |
| Pipeline.Big | main.rb:172 | The filter keeps exactly the rooms of radius 32 or more. |
| Pipeline.BigDistinct | main.rb:172 | Filtering a repeat-free room list gives a repeat-free list. |
| Pipeline.ActivateAll | main.rb:172 | `each(&:activate)`: every listed room becomes active, and nothing outside the list changes. |
| Pipeline.Positions | main.rb:169 | The map returns each room's body position, in order. |
| Pipeline.RandomPointInCircle | main.rb:96-104 | The floored point has integral coordinates within 20 of the origin on each axis. |
| Pipeline.Generator.constructor | main.rb:84-94 | The centre is `(width / 2, height / 2)` in integer division, and the three collections are empty. |
| Pipeline.Generator.Reset | main.rb:116-124 | Rooms, triangles and segments become empty whatever they were, so a second reset changes nothing. |
| Pipeline.Generator.GenerateRooms | main.rb:106-114 | One fresh room per point is appended, placed at `center + point`, with its drawn radius. The rooms already there are unchanged. |
| Pipeline.Generator.NewRooms | main.rb:107-108 | The new rooms are distinct and fresh, with awake bodies at the given positions and the given radii. |
| Pipeline.Generator.RandomGenerate | main.rb:126-129 | First 4 to 14 rooms of radius 32, then 32 to 42 rooms of odd radius 17 to 29. So only the first batch reaches radius 32. All offsets are scattered around the centre. |
| Pipeline.Generator.RandomPoints | main.rb:127-128 | `n` draws of `random_point_in_circle(20)`. |
| Pipeline.Generator.RandomRadii | main.rb:128 | `n` draws of `rand(7) * 2 + 17`, each odd, from 17 to 29. |
| Pipeline.Generator.Refresh | main.rb:131-135 | After reset and regeneration there are 36 to 56 fresh, inactive, awake rooms, and no triangles or segments. |
| Pipeline.Generator.SpanTree | main.rb:144-165 | The corridor branch. The triangles are unchanged. `Laid` holds: the pairs are the unique triangle edges, the segments index them, the tree is the greedy spanning forest over the length-sorted segments, and the corridors are the tree's paths then the paths of `size / 8` distinct remaining segments. Only the rooms that were active remain. |
| Pipeline.Generator.TriangulateRooms | main.rb:166-170 | The active rooms' positions are triangulated, provided they are distinct and off the bounding corners; this is reported in `ok`. Then the triangles are `Finalize(InsertAll(...))` of those positions. |
| Pipeline.Generator.SelectRooms | main.rb:171-172 | Between `size / 6` and `size / 6 + rand(size / 3)` rooms are wanted. `min(want, |big|)` distinct rooms of radius 32 or more become active, and no other room's flag changes. |
| Pipeline.Generator.Done | main.rb:178-180 | `done?` holds iff every room's body is asleep. |
| Pipeline.Generator.Selected | main.rb:182-184 | `selected?` holds iff some room is active, that is iff the list of active rooms is not empty. |
| Pipeline.Generator.Triangulated | main.rb:186-188 | `triangulated?` holds iff the triangle collection, which starts and is reset empty, has an entry. |
| Pipeline.Generator.Update | main.rb:142-176 | Each branch is taken iff the earlier tests fail and its own holds. The idle branch changes no rooms, triangles, corridors, flags or bodies. The corridor branch lays out the tree's paths then the sampled paths over the unchanged triangles (`Laid`), and keeps only the active rooms. The triangulation branch reports whether the positions were distinct and off the bounding corners, and then holds their triangulation. The selection branch reports its wanted count, in the source's range, and the `min(want, big)` distinct large rooms it activated; no other flag changes. Only the physics branch moves a body or changes whether it sleeps. |
| GeoPipeline.Snap | geo_generator.rb:46 | `((v + 3) / 4).floor * 4` is the multiple of 4 at or below `v + 3`. |
| GeoPipeline.SnapRoundsUp | geo_generator.rb:45-51 | On an integral argument the snap rounds up to the next multiple of 4. |
| GeoPipeline.Room.constructor | geo_generator.rb:20-43 | The body is fresh, awake and placed at `pos`. The room has sides `w` by `h` and is inactive. |
| GeoPipeline.Room.X | geo_generator.rb:45-47 | `x` is a multiple of 4 and is the snap of `body.x - width / 2`. |
| GeoPipeline.Room.Y | geo_generator.rb:49-51 | `y` is a multiple of 4 and is the snap of `body.y - height / 2`. |
| GeoPipeline.Room.MidX | geo_generator.rb:53-55 | The grid centre tracks the body: `mid_x` is the grid line at or below the body's x plus 3, so it lies within 4 of the body. With a width that is a multiple of 4 it is even. |
| GeoPipeline.Room.MidY | geo_generator.rb:57-59 | The grid centre tracks the body: `mid_y` is the grid line at or below the body's y plus 3, so it lies within 4 of the body. With a height that is a multiple of 4 it is even. |
| GeoPipeline.Room.Activate | geo_generator.rb:77-79 | The room becomes active and nothing else changes. |
| GeoPipeline.Room.Deactivate | geo_generator.rb:81-83 | The room becomes inactive and nothing else changes. |
| GeoPipeline.Qualified | geo_generator.rb:182 | The filter keeps exactly the rooms wider and taller than 32 whose area exceeds 1280. |
| GeoPipeline.ActiveOnly | geo_generator.rb:176 | `select(&:active?)` keeps exactly the active rooms. |
| GeoPipeline.Centres | geo_generator.rb:177 | Each room maps to the point `(mid_x, mid_y)`, in order. |
| GeoPipeline.LastAreLargest | geo_generator.rb:185 | In an area-sorted list, every room `last(num)` keeps is at least as large as every room it leaves. |
| GeoPipeline.ChosenAreLargest | geo_generator.rb:182-185 | Every activated room is at least as large as every qualifying room left inactive. |
| GeoPipeline.LargestQualify | geo_generator.rb:182-185 | The rooms picked by `last(num)` over the sorted qualifiers are qualifying rooms of the list. |
| GeoPipeline.QualifiedDistinct | geo_generator.rb:182 | Filtering a list of rooms without repeats by size and area leaves none. |
| GeoPipeline.LargestDistinct | geo_generator.rb:182-185 | `last(num)` over the area-sorted qualifiers of a repeat-free room list repeats no room. |
| GeoPipeline.ActivateAll | geo_generator.rb:185 | `each(&:activate)`: every listed room becomes active, and nothing outside the list changes. |
| GeoPipeline.RandomPointInEllipse | geo_generator.rb:116-124 | Both coordinates are multiples of 4, within the half-axes plus the snap's rounding. |
| GeoPipeline.RandomSide | geo_generator.rb:129-130 | `((rand(a) + 2) + (rand(b) + 1)) * 4` is a multiple of 4 from 12 to `(a + b + 1) * 4`. |
| GeoPipeline.GeoGenerator.constructor | geo_generator.rb:95-104 | The centre is `(width / 2, height / 2)`, there are no rooms, and the triangles are `nil`. |
| GeoPipeline.GeoGenerator.Reset | geo_generator.rb:139-147 | The rooms become empty and the triangles `nil`, whatever they were, so a second reset changes nothing. |
| GeoPipeline.GeoGenerator.GenerateRooms | geo_generator.rb:126-137 | One fresh room per point is appended at `center + point`. Its width is a multiple of 4 from 12 to 72 and its height a multiple of 4 from 12 to 52. |
| GeoPipeline.GeoGenerator.RandomGenerate | geo_generator.rb:192-194 | 22 to 32 new rooms, each on the grid within 64 across and 4 up or down of the centre, with sizes as above. |
| GeoPipeline.GeoGenerator.RandomPoints | geo_generator.rb:193 | `n` draws of `random_point_in_ellipse(64, 4)`. |
| GeoPipeline.GeoGenerator.Refresh | geo_generator.rb:196-199 | After reset and regeneration there are 22 to 32 fresh, inactive, awake rooms and no triangles. |
| GeoPipeline.GeoGenerator.TriangulateRooms | geo_generator.rb:175-180 | The active rooms' grid centres are triangulated, provided they are distinct and off the bounding corners; this is reported in `ok`. Then the triangles are `Finalize(InsertAll(...))` of those centres. |
| GeoPipeline.GeoGenerator.Wanted | geo_generator.rb:184 | `num` is at least `max(s / 4, 4)` and at most that plus three times `s / 4 - 1`. |
| GeoPipeline.GeoGenerator.SelectRooms | geo_generator.rb:181-186 | With fewer than three qualifiers the generator refreshes: 22 to 32 fresh, inactive, awake rooms and no triangulation. Otherwise the chosen rooms are `last(num)` of the area-sorted qualifiers, `min(num, qualifiers)` distinct rooms; they become active and no other flag changes. |
| GeoPipeline.GeoGenerator.Done | geo_generator.rb:156-158 | `done?` holds iff every room's body is asleep. |
| GeoPipeline.GeoGenerator.Selected | geo_generator.rb:160-162 | `selected?` holds iff some room is active, that is iff the list of active rooms is not empty. |
| GeoPipeline.GeoGenerator.Triangulated | geo_generator.rb:164-166 | `triangulated?` is Ruby truthiness of `@triangles`: false iff it is `nil`, and true for an empty triangulation too. |
| GeoPipeline.GeoGenerator.Update | geo_generator.rb:172-190 | Each branch is taken iff the earlier tests fail and its own holds. Once a triangulation exists, even an empty one, the frame changes no rooms, triangles, flags or bodies. The triangulation branch reports whether the grid centres were distinct and off the bounding corners, and then holds their triangulation. When the selection starts over there are 22 to 32 fresh, inactive, awake rooms of the generated sizes, and no triangulation. Otherwise it reports `num`, in the source's range, and activates exactly `last(num)` of the area-sorted qualifiers, `min(num, qualifiers)` distinct rooms; no other flag changes. Only the physics branch moves a body or changes whether it sleeps. |

## Left out

- Rendering and windowing are not part of this model: images, render targets, every `draw`, sprites, the window loop and key input.
- The physics engine is not modelled. Bodies have no mass or shape, and their registration with the space is left out. `@space.step` (main.rb:174, geo_generator.rb:188) is `Relax` in both generators, which carries no contract: a step can move bodies and put them to sleep arbitrarily.
- `GC.start` in `refresh` has no observable effect on the model.
- Floating point is not modelled:
  - Coordinates are exact `real`s.
  - The circumcircle divides by zero on collinear corners, which yields `Infinity`/`NaN` in the source. The model takes "no circle" there, so that circumcircle contains no point and such a triangle is kept for good. The source differs:
    - On a line that is not axis-parallel, both numerators are in general non-zero, so both centre coordinates and the radius become infinite. `Infinity <= Infinity` holds, so the source deletes the triangle at the next insertion.
    - On an axis-parallel line, one coordinate is `NaN`, the test is false, and the source keeps the triangle as well.
  - No Delaunay or planarity property is proved.
- √3 and the bounding radius are parameters pinned by their squares. The claim that the bounding triangle encloses the canvas is not proved.
- Corridor lengths are squared distances. This gives the same order, and so the same sort, as the source's distances.
- `Path` is its two end points. Its image and its `atan2` angle are left out.
- Pipeline.RandomPointInCircle: states only the integer box the floored point lies in, not the disc, because it leaves out the trigonometry.
- GeoPipeline.RandomPointInEllipse: states only the grid box the snapped point lies in, not the ellipse, for the same reason.
- `random_point_in_circle` in geo_generator.rb is never called and is not modelled.
- Collections.SortBy: Ruby's `sort_by` is not stable and leaves the order of equal keys open. `SortBy` fixes one order (insertion sort). So a tie between equal lengths or areas may come out differently in the source.
- Ruby `Set` iteration order is left open: the scans pick their next element nondeterministically.
- `rand(0)` returns a float in Ruby. The model takes that draw as 0, which gives the same outcome after the truncations that follow (`sample` and `last` with a float count).
- Delaunay.Triangulation.Compute: requires the new points to be distinct and not corners of the bounding triangle. The source would then build a degenerate triangle.
  - Both pipelines check this when they triangulate. When it fails they report failure and change nothing, where the source would carry on with coincident positions.
- Kruskal.Graph.Search: does not state minimum total length. It states that the result is the in-order greedy forest over the length-sorted segments, connects every segment's ends, and has at most `n - 1` segments.
- `@minimum_spanning` in geo_generator.rb is only ever set to `nil`, so the branch that tests it first is never taken. The model keeps no such field.
- `Room#deactivate` in geo_generator.rb is modelled but nothing calls it.
- `Segment#inspect` and `sleeping?` are not modelled as members. Sleep is the body's `asleep` flag, read by `Done`.
