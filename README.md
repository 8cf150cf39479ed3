# mask_to_objects in Dafny

A model of `mask_to_objects.py`, the converter that turns label masks (numpy
integer arrays) into polygon objects for the Cytomine nuclei-segmentation
workflow, with proofs about it.

- **2D** (`mask_to_objects_2d`): the mask is binarised to 255/0 against the
  background value. OpenCV's contour tracer (RETR_CCOMP) then gives a two-level
  hierarchy of contours, which `_locate` walks. Each top-level contour becomes
  a polygon whose holes are its child chain. The polygon is shifted by the
  optional (x, y) offset. An invalid polygon is repaired through
  `fix_geometry`, and one whose repair is still invalid is dropped. Each
  polygon's label is read from the mask at a pixel found inside it by
  `get_polygon_inner_point`.
- **3D** (`mask_to_objects_3d`): the volume is converted plane by plane along
  its third axis. The planes come from the mask or from its connected
  components. Slices are gathered in a dictionary keyed by their 2D label, in
  plane order. Each slice is tagged with its plane number plus the z offset,
  as depth or as time.
- **3D+t** (`mask_to_objects_3dt`): a (time, row, column, depth) mask is
  meant to be converted one timestep volume `mask[t]` at a time. Per label,
  it keeps one group of slices per timestep, each re-stamped with its time
  plus the t offset. As written, the loop passes the whole 4-dimensional
  `mask` to the 3D converter on every iteration, and that converter's
  dimension check then raises ValueError (see "## Findings"). The model
  keeps this as-written behaviour in `Convert3dt.AsWrittenRejectsEveryVolume`.
  Everything else about 3D+t is stated for the corrected loop over `mask[t]`;
  those rows are marked "(corrected: `mask[t]`)".

The model has these layers:

- **Values.** Arrays are values (`Raster.NdArray`, cells in row-major
  order). Shapely geometries, rings and points are datatypes
  (`Shapes`). Python's insertion-ordered dictionaries are `Grouping.Groups`:
  a key order plus a map.
- **Exceptions.** Every exception the code raises is an `Outcomes.Error`
  carried in a `Result`.
- **Foreign libraries.** OpenCV, shapely and skimage are the function-valued
  fields of `Collaborators.Oracle`, so every property below holds for any
  behaviour of those libraries.
- **Functions and loops.** Each Python function is a Dafny function stating
  its outcome. Each Python loop is also a Dafny method with a loop, proved
  equal to that function.

Modules follow the source: `Raster` (arrays, indexing, binarisation),
`Shapes` (geometry values, `linear_ring_is_valid`), `Collaborators` (the
libraries), `Repair` (`fix_geometry`), `Tracer` (`_locate`), `LabelRecovery`
(`get_polygon_inner_point`, `neighbour_pixels`), `Convert2d`, `Grouping`
(the dictionaries), `Convert3d` and `Convert3dt`.

## Model

| member | source | states |
|---|---|---|
| Raster.Index2 | mask_to_objects.py:254 | `mask[y, x]` succeeds exactly when both indices lie in [-n, n) of their axis (numpy's negative indexing), and otherwise raises IndexError |
| Raster.Index3 | mask_to_objects.py:297 | `mask[y, x, d]` succeeds exactly when all three indices lie in [-n, n) of their axis, and otherwise raises IndexError |
| Raster.Plane | mask_to_objects.py:290 | `label_img[:, :, d]` is a well-formed 2-dimensional array of the volume's height and width |
| Raster.PlaneIndex | mask_to_objects.py:290 | reading the plane `a[:, :, d]` at (row, col) is reading the volume at (row, col, d) |
| Raster.Frame | mask_to_objects.py:365-366 | the timestep volume `mask[t]` is well formed, with the mask's shape minus its first axis (corrected: `mask[t]`) |
| Raster.FrameCells | mask_to_objects.py:365-366 | the cells of `mask[t]` are the t-th block of the mask's cells: cell k of the frame is cell t * size + k of the mask, where size is the product of the other three axes (corrected: `mask[t]`) |
| Raster.BinaryOf | mask_to_objects.py:247-248 | the tracer's input has the mask's shape and holds 255 exactly where the mask is not the background, and 0 exactly where it is |
| Raster.BinaryOfAt | mask_to_objects.py:247-248 | under the same (possibly negative) indices, the binarised copy is 255 exactly where the mask differs from the background and 0 exactly where it equals it |
| Raster.BinaryOfBackground | mask_to_objects.py:247-248 | a mask holding only the background binarises to all zeros |
| Raster.Binarise | mask_to_objects.py:247-248 | the loop that fills a zeroed buffer builds exactly the binarised copy |
| Shapes.Trunc | mask_to_objects.py:206 | Python's `int()` on a coordinate truncates toward zero: for non-negative r, 0 <= n <= r < n + 1; for negative r, n - 1 < r <= n <= 0 |
| Shapes.Closed | mask_to_objects.py:163 | shapely closes a ring: it keeps the given coordinates as a prefix, adds at most one, and starts and ends with the first coordinate |
| Shapes.ClosedKeepsClosed | mask_to_objects.py:163 | an empty ring stays empty, an already closed ring is kept as it is, and any other ring gets its first coordinate appended once |
| Shapes.TranslateRing | mask_to_objects.py:38-64 | the affine map [1, 0, 0, 1, dx, dy] moves every coordinate by exactly (dx, dy) and keeps the length |
| Shapes.TranslateZero | mask_to_objects.py:38-64 | a zero translation is the identity on polygons |
| Shapes.TranslateTwice | mask_to_objects.py:38-64 | two translations compose into one translation by the summed offsets |
| Shapes.GeomAsList | mask_to_objects.py:81-86 | a Polygon is listed as the one-element list of itself, and a MultiPolygon as its parts, in order |
| Shapes.RingValidIffThreeDistinct | mask_to_objects.py:89-91 | a ring is valid (at least 3 distinct coordinates) exactly when three of its coordinates are pairwise distinct |
| Shapes.ShortRingInvalid | mask_to_objects.py:89-91 | a ring with fewer than three coordinates is never valid |
| Shapes.ClosedCoords | mask_to_objects.py:89-91 | closing a ring does not change its set of coordinates, so it does not change validity |
| Repair.ValidRings | mask_to_objects.py:108-111 | the kept holes are exactly the valid rings of the input: each kept ring is a valid input ring, and each valid input ring is kept |
| Repair.ValidRingsAppend | mask_to_objects.py:108-111 | filtering distributes over concatenation, so the holes keep their order |
| Repair.KeepValidRings | mask_to_objects.py:108-111 | the inner loop collects exactly the filtered holes |
| Repair.FixPartsAppend | mask_to_objects.py:104-120 | the fallback's output over a concatenation is the concatenation of the outputs, part order kept |
| Repair.FixPartsEmpty | mask_to_objects.py:104-125 | the fallback yields nothing exactly when no part contributes |
| Repair.RepairedCases | mask_to_objects.py:94-125 | fix_geometry returns the buffer's result when the buffer succeeds. It returns None exactly when the buffer raised and no part survived. Otherwise it returns one MultiPolygon of the survivors |
| Repair.FixPartsOrigin | mask_to_objects.py:104-120 | a polygon is in the fallback's output exactly when it is one of the parts that `buffer(0)` returned for some input part whose exterior is valid, rebuilt with that exterior and its valid holes |
| Repair.FixGeometry | mask_to_objects.py:94-125 | the method with the two loops computes exactly fix_geometry's outcome |
| Tracer.Siblings | mask_to_objects.py:152-159 | the next-sibling chain starts at the given contour and stays inside the hierarchy |
| Tracer.SiblingsFollowNext | mask_to_objects.py:152-159 | the chain follows `next` links until -1, with strictly increasing indices (no contour is visited twice) |
| Tracer.HolesAreChildChain | mask_to_objects.py:147-159 | a top contour's holes are none when it has no child, and otherwise one ring per contour of its first child's sibling chain, in chain order |
| Tracer.CollectHoles | mask_to_objects.py:147-159 | the inner while loop collects exactly those holes |
| Tracer.CandidateOffset | mask_to_objects.py:136-139 | the offset only translates the built polygon: offset (dx, dy) gives the un-offset polygon moved by (dx, dy), and (0, 0) gives the same as no offset |
| Tracer.AdmittedCases | mask_to_objects.py:165-174 | a valid polygon is kept unchanged. The check raises (AttributeError on None) exactly when the polygon is invalid and its repair is None. An invalid polygon with a repair gives the repair when that is valid and nothing otherwise. Whatever is kept is valid |
| Tracer.LocatedNoContours | mask_to_objects.py:140-141 | no contours give no components |
| Tracer.LocatedAtMostOnePerTop | mask_to_objects.py:141-180 | _locate yields at most one component per top contour with more than three points |
| Tracer.LocatedIsAdmittedTops | mask_to_objects.py:141-180 | _locate's outcome is the validity check applied, in sibling-chain order, to the built polygon of each top contour with more than three points; the first raising check ends the walk, and the others contribute their kept polygon, if any |
| Tracer.LocatedValid | mask_to_objects.py:162-174 | every component _locate returns is valid, and there are at most as many as top contours with more than three points |
| Tracer.LocatedWhenAllValid | mask_to_objects.py:141-180 | when every built polygon is valid, _locate returns exactly the built polygons of the top contours with more than three points, in sibling-chain order |
| Tracer.Locate | mask_to_objects.py:128-184 | the outer while loop computes exactly _locate's outcome |
| Tracer.LocatedFromFails | mask_to_objects.py:165-174 | the only exception of the hierarchy walk is the AttributeError of a failed repair |
| LabelRecovery.NeighbourPixels | mask_to_objects.py:213-219 | nine pixels; entry k is (x + k mod 3 - 1, y + k div 3 - 1), row by row |
| LabelRecovery.NeighbourhoodIsBlock | mask_to_objects.py:213-219 | a pixel is a neighbour exactly when it is at most one step away on each axis |
| LabelRecovery.FirstInside | mask_to_objects.py:207-209 | the position picked is the first neighbour inside the ring, and every earlier one is outside |
| LabelRecovery.InnerPointFromFails | mask_to_objects.py:205-210 | the scan from a vertex on fails exactly when no later vertex has an inside neighbour, and then with ValueError |
| LabelRecovery.InnerPointFromFirstMatch | mask_to_objects.py:205-209 | a successful scan stops at the first vertex with an inside neighbour and returns that vertex's first inside neighbour |
| LabelRecovery.InnerPointSpec | mask_to_objects.py:187-210 | the result is a pixel inside the exterior, in the 3x3 block of an exterior vertex. ValueError is raised exactly when no vertex has such a neighbour. A MultiPolygon raises AttributeError |
| LabelRecovery.FirstInsideOf | mask_to_objects.py:207-209 | the scan loop over points_in_poly picks that first inside neighbour |
| LabelRecovery.GetPolygonInnerPoint | mask_to_objects.py:204-210 | the loop over exterior vertices computes exactly get_polygon_inner_point's outcome |
| Convert2d.LabelledOk | mask_to_objects.py:251-255 | the labelling loop succeeds exactly when every polygon's label can be read. It then gives one slice per polygon, in order, with that polygon, its label and no time or depth |
| Convert2d.LabelledFirstFailure | mask_to_objects.py:251-255 | a failing labelling loop fails with the error of the first polygon whose label cannot be read |
| Convert2d.LabelOfFails | mask_to_objects.py:253-254 | reading a label fails only with AttributeError (MultiPolygon), ValueError (no inner pixel) or IndexError |
| Convert2d.Objects2dFails | mask_to_objects.py:244-255 | ValueError on dimension is raised exactly when ndim != 2. Any other failure is a failed repair, a MultiPolygon, no inner pixel or an out-of-range index |
| Convert2d.Objects2dSlices | mask_to_objects.py:244-255 | on success there is one slice per kept polygon, in walk order: the polygon unchanged, no time or depth, and as label the mask value at the polygon's inner pixel |
| Convert2d.LabelSlices | mask_to_objects.py:251-255 | the labelling loop computes exactly the labelled slices |
| Convert2d.MaskToObjects2d | mask_to_objects.py:222-255 | the method computes exactly mask_to_objects_2d's outcome |
| Grouping.NoGroups | mask_to_objects.py:288 | the empty dictionary is well formed |
| Grouping.Values | mask_to_objects.py:302 | `objects.values()` has one list per key, in insertion order, and none is empty |
| Grouping.AddEffect | mask_to_objects.py:294 | `d[k] = d.get(k, []) + [x]` extends k's list by exactly x and leaves the other keys alone. A new key goes last in insertion order, and an existing key keeps its place |
| Grouping.FirstSeenAppend | mask_to_objects.py:294 | inserting the keys of a + b into a dictionary leaves the same insertion order as inserting a and then b |
| Grouping.FirstSeenKeys | mask_to_objects.py:294 | inserting keys keeps the earlier keys first, in their order, and the dictionary then holds exactly the earlier keys and the inserted ones |
| Grouping.FirstSeenDistinct | mask_to_objects.py:294 | inserting keys lists each key once |
| Grouping.FirstSeenPosition | mask_to_objects.py:294 | each newly inserted key is new to the dictionary and stands at its first occurrence among the inserted keys |
| Grouping.FirstSeenOrder | mask_to_objects.py:294 | newly inserted keys are ordered by their first occurrences among the inserted keys: an earlier key's first occurrence comes before a later key's |
| Grouping.AddOrder | mask_to_objects.py:294 | `objects[label] = ...` inserts `label` into the insertion order and nothing else |
| Grouping.AddWf | mask_to_objects.py:294 | appending keeps keys unique and lists nonempty |
| Convert3d.LabelImage | mask_to_objects.py:282 | label_img has the mask's shape, and is the mask itself when labels are assumed unique |
| Convert3d.SliceOfTag | mask_to_objects.py:294-300 | a slice of plane d keeps its polygon and is tagged d + offset_z on the chosen axis only |
| Convert3d.AddLayered | mask_to_objects.py:294-300 | appending a slice of the current plane keeps every list within range and in plane order |
| Convert3d.AddSlicesLayered | mask_to_objects.py:291-301 | the inner loop keeps the lists layered |
| Convert3d.PlanesLayered | mask_to_objects.py:289-301 | the plane loop keeps the lists layered up to the last plane |
| Convert3d.ValuesLayered | mask_to_objects.py:302 | every list of `objects.values()` is layered |
| Convert3d.Objects3dLayered | mask_to_objects.py:280-302 | each returned object is a nonempty list of slices. Each slice is tagged on the chosen axis with plane + offset_z inside [offset_z, offset_z + depth) and is untagged on the other axis. Slices appear in non-decreasing plane order |
| Convert3d.AddSlicesKeyed | mask_to_objects.py:291-301 | when the plane is cut from the mask itself, re-reading the mask cannot fail and gives back each slice's own 2D label |
| Convert3d.PlaneKeyed | mask_to_objects.py:290-301 | with unique labels, one plane whose 2D conversion succeeds appends every slice under its own label |
| Convert3d.PlanesKeyed | mask_to_objects.py:289-301 | with unique labels, every slice is stored under its own label |
| Convert3d.Objects3dUniqueLabels | mask_to_objects.py:282-302 | with `assume_unique_labels`, all slices of an object carry one label and different objects carry different labels |
| Convert3d.AddSlicesOk | mask_to_objects.py:291-301 | the inner loop succeeds exactly when every slice of the plane can be built (its inner pixel found and `mask[y, x, d]` in range) |
| Convert3d.AddSlicesEffect | mask_to_objects.py:291-301 | after the inner loop, each label's list is its old list followed by exactly the slices built from the plane's objects with that label, in order |
| Convert3d.StoredUnderOrigin | mask_to_objects.py:291-301 | every slice stored under a label comes from an object of the plane with that 2D label, built from it with its inner-pixel label and its plane tag |
| Convert3d.PlanesEffect | mask_to_objects.py:289-301 | after the plane loop, each label's list is its old list followed by the slices stored under it from each plane, in plane order |
| Convert3d.StoredFromOrigin | mask_to_objects.py:289-301 | every slice stored under a label comes from some plane d at or after the start, from an object of that plane's 2D conversion with that label, built with plane d's tag |
| Convert3d.AddSlicesOrder | mask_to_objects.py:291-301 | a successful inner loop inserts the plane's 2D labels into the dictionary in slice order |
| Convert3d.PlanesOrder | mask_to_objects.py:289-301 | a successful plane loop inserts the labels of all planes' slices, plane after plane, so the keys are those labels in the order of their first occurrence |
| Convert3d.Objects3dContents | mask_to_objects.py:280-302 | the returned objects are, one per distinct label, exactly the slices stored under that label over all planes; every label with a stored slice has an object; the labels are the 2D labels of all planes' slices (plane after plane, each in slice order) in the order of their first occurrence |
| Convert3d.AddSlicesFails | mask_to_objects.py:291-297 | the inner loop fails only with AttributeError, ValueError (no inner pixel) or IndexError |
| Convert3d.PlanesFails | mask_to_objects.py:289-301 | the plane loop fails only with a failed repair, AttributeError, ValueError or IndexError |
| Convert3d.Objects3dFails | mask_to_objects.py:280-302 | ValueError on dimension is raised exactly when ndim != 3. The TypeError of the default offset is raised exactly when a 3D mask comes without offset. Other failures come only from the 2D conversion or the label lookup |
| Convert3d.AppendSlices | mask_to_objects.py:291-301 | the inner loop computes exactly the dictionary update |
| Convert3d.MaskToObjects3d | mask_to_objects.py:258-302 | the method computes exactly mask_to_objects_3d's outcome |
| Convert3dt.RetimedKeeps | mask_to_objects.py:374-381 | re-stamping keeps each slice's polygon, label and depth and sets its time |
| Convert3dt.AddTimestep | mask_to_objects.py:372-382 | appending a timestep's objects keeps the dictionary well formed |
| Convert3dt.FrameResults | mask_to_objects.py:364-371 | there is one conversion per timestep, each that of the 3D converter on `mask[t]` with `offset[1:]` and unique labels (corrected: `mask[t]`) |
| Convert3dt.AsWrittenRejectsEveryVolume | mask_to_objects.py:364-371 | as written, every 4D mask with a timestep and an offset raises the 3D converter's dimension ValueError (ndim 4), and a mask with no timestep gives no objects |
| Convert3dt.FramesOk | mask_to_objects.py:364-382 | the timestep loop succeeds exactly when every timestep converts (corrected: `mask[t]`) |
| Convert3dt.FramesFirstFailure | mask_to_objects.py:364-382 | a failing timestep loop fails with the error of the first timestep that does not convert, and all earlier timesteps converted (corrected: `mask[t]`) |
| Convert3dt.Objects3dtFails | mask_to_objects.py:358-383 | ValueError on dimension is raised exactly when ndim != 4. TypeError is raised exactly when a 4D mask comes without offset. Any other failure is the error of the 3D conversion of some `mask[t]` (corrected: `mask[t]`) |
| Convert3dt.AddTimestepEffect | mask_to_objects.py:372-382 | one timestep appends, under each label, exactly the re-stamped objects of that label, in order, and changes nothing else |
| Convert3dt.AppendedAtMostOne | mask_to_objects.py:372-382 | objects with distinct labels give at most one group per label and timestep |
| Convert3dt.FramesEffect | mask_to_objects.py:364-382 | after the timestep loop, each label's list is its old list followed by the re-stamped groups of that label from each timestep, in time order (corrected: `mask[t]`) |
| Convert3dt.AddTimestepOrder | mask_to_objects.py:372-382 | one timestep inserts its objects' labels into the dictionary in the order the 3D converter returned them |
| Convert3dt.FramesOrder | mask_to_objects.py:364-382 | a successful timestep loop inserts the labels of all timesteps' objects, timestep after timestep, so the keys are those labels in the order of their first occurrence (corrected: `mask[t]`) |
| Convert3dt.Objects3dtContents | mask_to_objects.py:358-383 | the returned objects are, one per distinct label, exactly that label's re-stamped groups over all timesteps; every label with a group has an object; the labels are those of all timesteps' 3D objects (timestep after timestep, each in the 3D converter's order) in the order of their first occurrence (corrected: `mask[t]`) |
| Convert3dt.LabelTimeline | mask_to_objects.py:372-382 | after one timestep each label's list is still a timeline, one step longer |
| Convert3dt.AddTimestepTimeline | mask_to_objects.py:372-382 | one timestep keeps the whole dictionary a timeline |
| Convert3dt.FramesTimeline | mask_to_objects.py:364-382 | the timestep loop keeps the timeline up to the last timestep (corrected: `mask[t]`) |
| Convert3dt.Objects3dtTimeline | mask_to_objects.py:358-383 | each returned object has one nonempty group per timestep at which it appears, with times strictly increasing inside [offset_t, offset_t + duration). Each slice carries its group's time, the object's label and a depth inside [offset_z, offset_z + depth). Different objects carry different labels (corrected: `mask[t]`) |
| Convert3dt.AppendTimestep | mask_to_objects.py:372-382 | the loop over one timestep's objects computes exactly the dictionary update |
| Convert3dt.ConvertFrames | mask_to_objects.py:364-382 | the timestep loop computes exactly the folded outcome over the per-timestep conversions (corrected: `mask[t]`) |
| Convert3dt.MaskToObjects3dt | mask_to_objects.py:305-383 | the method computes exactly the corrected mask_to_objects_3dt outcome |

## Left out

- **Foreign libraries.** `cv2.findContours`, shapely's `is_valid` and `buffer(0)`, skimage's `points_in_poly` and `label` are fields of `Collaborators.Oracle`. Their geometry algorithms are not modelled. The proofs hold for every behaviour of them.
- **Tracer output.** The tracer's output is taken to have one hierarchy row per contour and forward-pointing next and child links (the `Traced` type). This reflects OpenCV's listing of contours: it flattens its contour tree depth first, so a contour's first child and next sibling come after it. It is what makes the hierarchy walk finish.
- **The tracer's input.** The `segmented.copy()` and the `uint8` dtype of the tracer's input are not modelled. The model passes the array value itself, and `del contours` / `del hierarchy` have no counterpart.
- **Warnings.** `warn` and `explain_validity` for a polygon whose repair is still invalid are left out. Only the dropping of that polygon is modelled.
- **Shapely construction.** Shapely's own checks in the `Polygon` and `MultiPolygon` constructors (rings with fewer than 3 points raising ValueError) are not modelled. A built polygon is a value. GeometryCollection and other geometry kinds that `buffer(0)` might return are not modelled; the model has only Polygon and MultiPolygon.
- **Floating point.** Floating-point coordinates are exact reals, so no rounding is modelled.
- **Offsets.** z and t offsets are integers, and offset tuples of the wrong length are not modelled. A missing offset is modelled: in the 3D and 3D+t converters the default `offset=None` is sliced and raises TypeError (`MissingOffset`). In 2D, `None` means no translation.
- **Other files.** wrapper.py and add_cytomine_software.py are not part of this model: they are the Cytomine job driver and the software registration script.
- **Convert3d.SliceOf:** the stored label is read as `mask[y, x, d]` from the original mask, while the dictionary key is the 2D label taken from `label_img`. The model keeps this as the source has it. The inner pixel is computed on the polygon already shifted by the xy offset, as in the source.
- **Dictionary order.** The model takes `objects.values()` in key insertion order, which Python guarantees from version 3.7 on. The source does not fix its interpreter version (it unpacks OpenCV 3's three results of `findContours`), so on an older interpreter the order of the returned objects may differ.
- **Tracer.Admitted:** a repair that returns None raises AttributeError when `.is_valid` is read on it (`RepairFailed`). A MultiPolygon reaching `get_polygon_inner_point` raises AttributeError on `.exterior` (`NoExterior`). Both are modelled as these errors.

## Findings

| source | as written | input that shows it | evidently intended | confidence | as-written member | corrected member |
|---|---|---|---|---|---|---|
| mask_to_objects.py:365-371 | the timestep loop passes the whole 4-dimensional `mask` to `mask_to_objects_3d`, whose dimension check then raises ValueError | any 4-dimensional mask with `mask.shape[0] > 0` and an offset | pass `mask[t]`, the volume of timestep t | not executed | Convert3dt.AsWrittenRejectsEveryVolume | Convert3dt.Objects3dtTimeline |
