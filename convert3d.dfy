/** mask_to_objects_3d: convert a volume plane by plane along its third axis
    and gather the slices in a dictionary keyed by their 2D label, in plane
    order, each slice tagged with its depth (or time). */
module Convert3d {
  import opened Outcomes
  import opened Raster
  import opened Shapes
  import opened Collaborators
  import opened Tracer
  import opened LabelRecovery
  import opened Convert2d
  import opened Grouping

  /** An (x, y, z) offset: `offset[:2]` shifts the polygons, `offset[-1]`
      is added to the plane number. */
  datatype Offset3 = Offset3(x: real, y: real, z: int)

  /** `label_img`: the mask itself when labels are assumed unique, otherwise
      its connected components (skimage label, connectivity 2). */
  function LabelImage(o: Oracle, mask: NdArray, background: int, assumeUniqueLabels: bool): (img: NdArray)
    ensures img.shape == mask.shape && |img.cells| == |mask.cells|
    ensures Wf(mask) ==> Wf(img)
    ensures assumeUniqueLabels ==> img == mask
  {
    if assumeUniqueLabels then mask
    else NdArray(mask.shape, seq(|mask.cells|, k requires 0 <= k < |mask.cells| =>
      o.componentLabel(mask, background, k)))
  }

  /** The tag a slice carries for its plane: its time when the third axis is
      time, its depth otherwise. */
  function Level(s: ObjectSlice, time: bool): Option<int>
  {
    if time then s.time else s.depth
  }

  /** The tag the slice leaves unset. */
  function Other(s: ObjectSlice, time: bool): Option<int>
  {
    if time then s.depth else s.time
  }

  /** The slice stored for a 2D slice found in plane d: the same polygon,
      the original mask's value at the polygon's inner pixel in that plane,
      and the plane number plus the z offset as depth or as time. */
  function SliceOf(o: Oracle, mask: NdArray, d: int, z: int, time: bool, s: ObjectSlice): Result<ObjectSlice>
    requires Wf(mask) && |mask.shape| == 3
  {
    match InnerPoint(o, s.polygon)
    case Err(e) => Err(e)
    case Ok(px) =>
      match Index3(mask, px.y, px.x, d)
      case Err(e) => Err(e)
      case Ok(v) => Ok(ObjectSlice(s.polygon, v, if time then Some(d + z) else None, if time then None else Some(d + z)))
  }

  /** The inner loop over one plane's slices, each appended under its 2D
      label. */
  function AddSlices(o: Oracle, mask: NdArray, d: int, z: int, time: bool, g: Groups<ObjectSlice>,
                     slices: seq<ObjectSlice>): (r: Result<Groups<ObjectSlice>>)
    requires Wf(mask) && |mask.shape| == 3 && GroupsWf(g)
    ensures r.Ok? ==> GroupsWf(r.value)
    decreases |slices|
  {
    if slices == [] then Ok(g)
    else
      match SliceOf(o, mask, d, z, time, slices[0])
      case Err(e) => Err(e)
      case Ok(s) =>
        AddWf(g, slices[0].labelValue, s);
        AddSlices(o, mask, d, z, time, Add(g, slices[0].labelValue, s), slices[1..])
  }

  /** The outer loop, from plane d on. */
  function Planes(o: Oracle, mask: NdArray, background: int, assumeUniqueLabels: bool, offset: Offset3,
                  time: bool, d: nat, g: Groups<ObjectSlice>): (r: Result<Groups<ObjectSlice>>)
    requires Wf(mask) && |mask.shape| == 3
    requires GroupsWf(g)
    ensures r.Ok? ==> GroupsWf(r.value)
    decreases mask.shape[2] - d
  {
    if d >= mask.shape[2] then Ok(g)
    else
      var plane := Plane(LabelImage(o, mask, background, assumeUniqueLabels), d);
      match Objects2d(o, plane, background, Some(Shift(offset.x, offset.y)))
      case Err(e) => Err(e)
      case Ok(slices) =>
        match AddSlices(o, mask, d, offset.z, time, g, slices)
        case Err(e) => Err(e)
        case Ok(next) => Planes(o, mask, background, assumeUniqueLabels, offset, time, d + 1, next)
  }

  /** The outcome of mask_to_objects_3d: `objects.values()`, or the
      exception raised on the way. */
  function Objects3d(o: Oracle, mask: NdArray, background: int, offset: Option<Offset3>,
                     assumeUniqueLabels: bool, time: bool): (r: Result<seq<seq<ObjectSlice>>>)
    requires Wf(mask)
    ensures r.Ok? ==> forall i :: 0 <= i < |r.value| ==> |r.value[i]| > 0
  {
    if |mask.shape| != 3 then Err(DimensionError(|mask.shape|))
    else if offset.None? then Err(MissingOffset)
    else
      match Planes(o, mask, background, assumeUniqueLabels, offset.value, time, 0, NoGroups())
      case Err(e) => Err(e)
      case Ok(g) => Ok(Values(g))
  }

  // Tagging and plane order

  /** Every slice of the list is tagged with a plane in [z, z + hi) on the
      chosen axis and untagged on the other, and the tags never decrease
      along the list. */
  predicate LayeredList(l: seq<ObjectSlice>, z: int, time: bool, hi: int)
  {
    && (forall j :: 0 <= j < |l| ==>
          Other(l[j], time).None? && Level(l[j], time).Some? && z <= Level(l[j], time).value < z + hi)
    && (forall i, j :: 0 <= i < j < |l| ==> Level(l[i], time).value <= Level(l[j], time).value)
  }

  predicate Layered(g: Groups<ObjectSlice>, z: int, time: bool, hi: int)
  {
    forall k :: k in g.members ==> LayeredList(g.members[k], z, time, hi)
  }

  /** A slice of plane d is tagged d + z on the chosen axis only. */
  lemma SliceOfTag(o: Oracle, mask: NdArray, d: int, z: int, time: bool, s: ObjectSlice)
    requires Wf(mask) && |mask.shape| == 3
    requires SliceOf(o, mask, d, z, time, s).Ok?
    ensures var t := SliceOf(o, mask, d, z, time, s).value;
      Level(t, time) == Some(d + z) && Other(t, time).None? && t.polygon == s.polygon
  {
  }

  /** Appending a slice tagged with the current plane keeps every list
      layered. */
  lemma AddLayered(g: Groups<ObjectSlice>, key: int, s: ObjectSlice, z: int, time: bool, d: nat)
    requires GroupsWf(g) && Layered(g, z, time, d + 1)
    requires Level(s, time) == Some(d + z) && Other(s, time).None?
    ensures Layered(Add(g, key, s), z, time, d + 1)
  {
    var h := Add(g, key, s);
    forall k | k in h.members
      ensures LayeredList(h.members[k], z, time, d + 1)
    {
      if k == key {
        var l := Get(g, key);
        assert h.members[k] == l + [s];
        assert LayeredList(l, z, time, d + 1);
        var l' := l + [s];
        assert forall j :: 0 <= j < |l| ==> l'[j] == l[j];
        assert forall j :: 0 <= j < |l| ==> Level(l'[j], time).value <= d + z;
      }
    }
  }

  lemma {:induction false} AddSlicesLayered(o: Oracle, mask: NdArray, d: nat, z: int, time: bool,
                                             g: Groups<ObjectSlice>, slices: seq<ObjectSlice>)
    requires Wf(mask) && |mask.shape| == 3 && GroupsWf(g) && Layered(g, z, time, d + 1)
    ensures AddSlices(o, mask, d, z, time, g, slices).Ok? ==>
      Layered(AddSlices(o, mask, d, z, time, g, slices).value, z, time, d + 1)
    decreases |slices|
  {
    if slices != [] && SliceOf(o, mask, d, z, time, slices[0]).Ok? {
      var s := SliceOf(o, mask, d, z, time, slices[0]).value;
      SliceOfTag(o, mask, d, z, time, slices[0]);
      AddLayered(g, slices[0].labelValue, s, z, time, d);
      AddWf(g, slices[0].labelValue, s);
      AddSlicesLayered(o, mask, d, z, time, Add(g, slices[0].labelValue, s), slices[1..]);
    }
  }

  lemma LayeredWiden(g: Groups<ObjectSlice>, z: int, time: bool, hi: int)
    requires Layered(g, z, time, hi)
    ensures Layered(g, z, time, hi + 1)
  {
  }

  lemma {:induction false} PlanesLayered(o: Oracle, mask: NdArray, background: int, assumeUniqueLabels: bool,
                                          offset: Offset3, time: bool, d: nat, g: Groups<ObjectSlice>)
    requires Wf(mask) && |mask.shape| == 3
    requires GroupsWf(g) && d <= mask.shape[2] && Layered(g, offset.z, time, d)
    ensures var r := Planes(o, mask, background, assumeUniqueLabels, offset, time, d, g);
      r.Ok? ==> Layered(r.value, offset.z, time, mask.shape[2])
    decreases mask.shape[2] - d
  {
    if d < mask.shape[2] {
      var plane := Plane(LabelImage(o, mask, background, assumeUniqueLabels), d);
      var found := Objects2d(o, plane, background, Some(Shift(offset.x, offset.y)));
      if found.Ok? {
        LayeredWiden(g, offset.z, time, d);
        AddSlicesLayered(o, mask, d, offset.z, time, g, found.value);
        var added := AddSlices(o, mask, d, offset.z, time, g, found.value);
        if added.Ok? {
          PlanesLayered(o, mask, background, assumeUniqueLabels, offset, time, d + 1, added.value);
        }
      }
    }
  }

  /** Every object mask_to_objects_3d returns is a nonempty list of slices,
      each tagged on the chosen axis (time when `time` holds, depth
      otherwise) with its plane number plus the z offset, inside the volume's
      range, untagged on the other axis, and listed in non-decreasing plane
      order. */
  lemma Objects3dLayered(o: Oracle, mask: NdArray, background: int, offset: Option<Offset3>,
                         assumeUniqueLabels: bool, time: bool)
    requires Wf(mask)
    requires Objects3d(o, mask, background, offset, assumeUniqueLabels, time).Ok?
    ensures |mask.shape| == 3 && offset.Some?
    ensures var objects := Objects3d(o, mask, background, offset, assumeUniqueLabels, time).value;
      forall i :: 0 <= i < |objects| ==>
        |objects[i]| > 0 && LayeredList(objects[i], offset.value.z, time, mask.shape[2])
  {
    PlanesLayered(o, mask, background, assumeUniqueLabels, offset.value, time, 0, NoGroups());
    var g := Planes(o, mask, background, assumeUniqueLabels, offset.value, time, 0, NoGroups()).value;
    ValuesLayered(g, offset.value.z, time, mask.shape[2]);
  }

  lemma ValuesLayered(g: Groups<ObjectSlice>, z: int, time: bool, hi: int)
    requires GroupsWf(g) && Layered(g, z, time, hi)
    ensures forall i :: 0 <= i < |Values(g)| ==> LayeredList(Values(g)[i], z, time, hi)
  {
    var vs := Values(g);
    forall i | 0 <= i < |vs|
      ensures LayeredList(vs[i], z, time, hi)
    {
      var key := g.order[i];
      assert key in g.members && vs[i] == g.members[key];
      assert LayeredList(g.members[key], z, time, hi);
    }
  }

  // Labels when they are assumed unique

  /** Every slice stored under a key carries that key as its label. */
  predicate Keyed(g: Groups<ObjectSlice>)
  {
    forall k :: k in g.members ==> forall j :: 0 <= j < |g.members[k]| ==> g.members[k][j].labelValue == k
  }

  /** The 2D slices of a plane, with each label read at its polygon's inner
      pixel in that plane. */
  predicate ReadAt(o: Oracle, plane: NdArray, slices: seq<ObjectSlice>)
    requires Wf(plane) && |plane.shape| == 2
  {
    forall k :: 0 <= k < |slices| ==>
      && InnerPoint(o, slices[k].polygon).Ok?
      && Index2(plane, InnerPoint(o, slices[k].polygon).value.y, InnerPoint(o, slices[k].polygon).value.x)
         == Ok(slices[k].labelValue)
  }

  /** When the plane was cut from the mask itself, re-reading the mask at the
      same pixel gives back the 2D label: the loop cannot fail and stores
      every slice under its own label. */
  lemma {:induction false} AddSlicesKeyed(o: Oracle, mask: NdArray, d: nat, z: int, time: bool,
                                           g: Groups<ObjectSlice>, slices: seq<ObjectSlice>)
    requires Wf(mask) && |mask.shape| == 3 && d < mask.shape[2] && GroupsWf(g) && Keyed(g)
    requires ReadAt(o, Plane(mask, d), slices)
    ensures AddSlices(o, mask, d, z, time, g, slices).Ok?
    ensures Keyed(AddSlices(o, mask, d, z, time, g, slices).value)
    decreases |slices|
  {
    if slices != [] {
      var px := InnerPoint(o, slices[0].polygon).value;
      PlaneIndex(mask, d, px.y, px.x);
      var s := SliceOf(o, mask, d, z, time, slices[0]).value;
      assert s.labelValue == slices[0].labelValue;
      var h := Add(g, slices[0].labelValue, s);
      AddWf(g, slices[0].labelValue, s);
      assert Keyed(h) by {
        forall k | k in h.members
          ensures forall j :: 0 <= j < |h.members[k]| ==> h.members[k][j].labelValue == k
        {
          if k == slices[0].labelValue {
            assert h.members[k] == Get(g, k) + [s];
          }
        }
      }
      assert forall k :: 1 <= k < |slices| ==> slices[1..][k - 1] == slices[k];
      AddSlicesKeyed(o, mask, d, z, time, h, slices[1..]);
    }
  }

  /** One plane of the outer loop with unique labels: if its 2D conversion
      succeeds, appending its slices succeeds and keeps every slice under its
      own label. */
  lemma PlaneKeyed(o: Oracle, mask: NdArray, background: int, shift: Option<Shift>, z: int, time: bool,
                   d: nat, g: Groups<ObjectSlice>)
    requires Wf(mask) && |mask.shape| == 3 && d < mask.shape[2]
    requires GroupsWf(g) && Keyed(g)
    requires Objects2d(o, Plane(mask, d), background, shift).Ok?
    ensures var added := AddSlices(o, mask, d, z, time, g, Objects2d(o, Plane(mask, d), background, shift).value);
      added.Ok? && Keyed(added.value)
  {
    Objects2dSlices(o, Plane(mask, d), background, shift);
    AddSlicesKeyed(o, mask, d, z, time, g, Objects2d(o, Plane(mask, d), background, shift).value);
  }

  lemma {:induction false} PlanesKeyed(o: Oracle, mask: NdArray, background: int, offset: Offset3,
                                        time: bool, d: nat, g: Groups<ObjectSlice>)
    requires Wf(mask) && |mask.shape| == 3
    requires GroupsWf(g) && Keyed(g)
    ensures var r := Planes(o, mask, background, true, offset, time, d, g);
      r.Ok? ==> Keyed(r.value)
    decreases mask.shape[2] - d
  {
    if d < mask.shape[2] {
      var plane := Plane(LabelImage(o, mask, background, true), d);
      assert plane == Plane(mask, d);
      var shift := Some(Shift(offset.x, offset.y));
      var found := Objects2d(o, plane, background, shift);
      if found.Ok? {
        PlaneKeyed(o, mask, background, shift, offset.z, time, d, g);
        var added := AddSlices(o, mask, d, offset.z, time, g, found.value);
        PlanesKeyed(o, mask, background, offset, time, d + 1, added.value);
      }
    }
  }

  /** With `assume_unique_labels`, every slice of an object carries the same
      label and different objects carry different labels. */
  lemma Objects3dUniqueLabels(o: Oracle, mask: NdArray, background: int, offset: Option<Offset3>, time: bool)
    requires Wf(mask)
    requires Objects3d(o, mask, background, offset, true, time).Ok?
    ensures var objects := Objects3d(o, mask, background, offset, true, time).value;
      && (forall i, j :: 0 <= i < |objects| && 0 <= j < |objects[i]| ==> objects[i][j].labelValue == objects[i][0].labelValue)
      && (forall i, j :: 0 <= i < j < |objects| ==> objects[i][0].labelValue != objects[j][0].labelValue)
  {
    var g := Planes(o, mask, background, true, offset.value, time, 0, NoGroups()).value;
    PlanesKeyed(o, mask, background, offset.value, time, 0, NoGroups());
    var objects: seq<seq<ObjectSlice>> := Values(g);
    forall i | 0 <= i < |objects|
      ensures objects[i][0].labelValue == g.order[i]
    {
    }
  }

  // What each list holds

  /** The slices plane d stores under `key`, in order: its 2D slices whose
      label is `key`, each re-read from the mask and tagged. */
  function StoredUnder(o: Oracle, mask: NdArray, d: int, z: int, time: bool, slices: seq<ObjectSlice>,
                       key: int): (r: seq<ObjectSlice>)
    requires Wf(mask) && |mask.shape| == 3
    ensures |r| <= |slices|
    decreases |slices|
  {
    if slices == [] then []
    else
      (if slices[0].labelValue == key && SliceOf(o, mask, d, z, time, slices[0]).Ok?
       then [SliceOf(o, mask, d, z, time, slices[0]).value] else [])
      + StoredUnder(o, mask, d, z, time, slices[1..], key)
  }

  /** One step of the inner loop over a plane, when the first slice's label
      can be re-read. */
  lemma AddSlicesCons(o: Oracle, mask: NdArray, d: int, z: int, time: bool, g: Groups<ObjectSlice>,
                      slices: seq<ObjectSlice>, key: int)
    requires Wf(mask) && |mask.shape| == 3 && GroupsWf(g)
    requires slices != [] && SliceOf(o, mask, d, z, time, slices[0]).Ok?
    ensures var s := SliceOf(o, mask, d, z, time, slices[0]).value;
      && GroupsWf(Add(g, slices[0].labelValue, s))
      && AddSlices(o, mask, d, z, time, g, slices)
         == AddSlices(o, mask, d, z, time, Add(g, slices[0].labelValue, s), slices[1..])
      && StoredUnder(o, mask, d, z, time, slices, key)
         == (if slices[0].labelValue == key then [s] else []) + StoredUnder(o, mask, d, z, time, slices[1..], key)
  {
    AddWf(g, slices[0].labelValue, SliceOf(o, mask, d, z, time, slices[0]).value);
  }

  /** The inner loop over one plane succeeds exactly when every slice's label
      can be re-read. */
  lemma {:induction false} AddSlicesOk(o: Oracle, mask: NdArray, d: int, z: int, time: bool,
                                        g: Groups<ObjectSlice>, slices: seq<ObjectSlice>)
    requires Wf(mask) && |mask.shape| == 3 && GroupsWf(g)
    ensures AddSlices(o, mask, d, z, time, g, slices).Ok? <==>
      forall k :: 0 <= k < |slices| ==> SliceOf(o, mask, d, z, time, slices[k]).Ok?
    decreases |slices|
  {
    if slices != [] {
      assert forall k :: 1 <= k < |slices| ==> slices[1..][k - 1] == slices[k];
      if SliceOf(o, mask, d, z, time, slices[0]).Ok? {
        var s := SliceOf(o, mask, d, z, time, slices[0]).value;
        AddSlicesCons(o, mask, d, z, time, g, slices, 0);
        AddSlicesOk(o, mask, d, z, time, Add(g, slices[0].labelValue, s), slices[1..]);
      }
    }
  }

  /** A successful inner loop appends, under each label, exactly the slices
      the plane stores under it, in order; no other list changes. */
  lemma {:induction false} AddSlicesEffect(o: Oracle, mask: NdArray, d: int, z: int, time: bool,
                                            g: Groups<ObjectSlice>, slices: seq<ObjectSlice>, key: int)
    requires Wf(mask) && |mask.shape| == 3 && GroupsWf(g)
    requires AddSlices(o, mask, d, z, time, g, slices).Ok?
    ensures Get(AddSlices(o, mask, d, z, time, g, slices).value, key)
            == Get(g, key) + StoredUnder(o, mask, d, z, time, slices, key)
    decreases |slices|
  {
    if slices != [] {
      AddSlicesCons(o, mask, d, z, time, g, slices, key);
      AddThenRest(g, slices[0].labelValue, SliceOf(o, mask, d, z, time, slices[0]).value, key,
                  StoredUnder(o, mask, d, z, time, slices[1..], key));
      AddSlicesEffect(o, mask, d, z, time, Add(g, slices[0].labelValue, SliceOf(o, mask, d, z, time, slices[0]).value),
                      slices[1..], key);
    }
  }

  /** Each slice a plane stores under `key` is the re-read, tagged copy of
      one of its 2D slices whose label is `key`. */
  lemma {:induction false} StoredUnderOrigin(o: Oracle, mask: NdArray, d: int, z: int, time: bool,
                                              slices: seq<ObjectSlice>, key: int, s: ObjectSlice) returns (j: nat)
    requires Wf(mask) && |mask.shape| == 3
    requires s in StoredUnder(o, mask, d, z, time, slices, key)
    ensures j < |slices| && slices[j].labelValue == key && SliceOf(o, mask, d, z, time, slices[j]) == Ok(s)
    decreases |slices|
  {
    var rest := StoredUnder(o, mask, d, z, time, slices[1..], key);
    if slices[0].labelValue == key && SliceOf(o, mask, d, z, time, slices[0]) == Ok(s) {
      j := 0;
    } else {
      assert s in rest;
      var i := StoredUnderOrigin(o, mask, d, z, time, slices[1..], key, s);
      j := i + 1;
    }
  }

  /** The 2D slices of plane d of the label image; none when its conversion
      fails. */
  function PlaneSlices(o: Oracle, mask: NdArray, background: int, assumeUniqueLabels: bool, offset: Offset3,
                       d: nat): seq<ObjectSlice>
    requires Wf(mask) && |mask.shape| == 3 && d < mask.shape[2]
  {
    var found := Objects2d(o, Plane(LabelImage(o, mask, background, assumeUniqueLabels), d), background,
                           Some(Shift(offset.x, offset.y)));
    if found.Ok? then found.value else []
  }

  /** What the planes from d on store under `key`, in plane order. */
  function StoredFrom(o: Oracle, mask: NdArray, background: int, assumeUniqueLabels: bool, offset: Offset3,
                      time: bool, d: nat, key: int): seq<ObjectSlice>
    requires Wf(mask) && |mask.shape| == 3
    decreases mask.shape[2] - d
  {
    if d >= mask.shape[2] then []
    else
      StoredUnder(o, mask, d, offset.z, time, PlaneSlices(o, mask, background, assumeUniqueLabels, offset, d), key)
      + StoredFrom(o, mask, background, assumeUniqueLabels, offset, time, d + 1, key)
  }

  /** Each slice the planes from d on store under `key` comes from one 2D
      slice with that label of one plane d' >= d, re-read from the mask and
      tagged in that plane (so, by SliceOfTag, with that slice's polygon and
      the tag d' plus the z offset). */
  lemma {:induction false} StoredFromOrigin(o: Oracle, mask: NdArray, background: int, assumeUniqueLabels: bool,
                                             offset: Offset3, time: bool, d: nat, key: int, s: ObjectSlice)
    returns (plane: nat, j: nat)
    requires Wf(mask) && |mask.shape| == 3
    requires s in StoredFrom(o, mask, background, assumeUniqueLabels, offset, time, d, key)
    ensures d <= plane < mask.shape[2]
    ensures var slices := PlaneSlices(o, mask, background, assumeUniqueLabels, offset, plane);
      && j < |slices| && slices[j].labelValue == key
      && SliceOf(o, mask, plane, offset.z, time, slices[j]) == Ok(s)
    decreases mask.shape[2] - d
  {
    var slices := PlaneSlices(o, mask, background, assumeUniqueLabels, offset, d);
    var here := StoredUnder(o, mask, d, offset.z, time, slices, key);
    if s in here {
      plane := d;
      j := StoredUnderOrigin(o, mask, d, offset.z, time, slices, key, s);
    } else {
      plane, j := StoredFromOrigin(o, mask, background, assumeUniqueLabels, offset, time, d + 1, key, s);
    }
  }

  /** One step of a successful plane loop: plane d converts, its slices'
      labels can all be re-read, and the loop goes on from the next plane
      with them appended. */
  lemma PlanesCons(o: Oracle, mask: NdArray, background: int, assumeUniqueLabels: bool, offset: Offset3,
                   time: bool, d: nat, g: Groups<ObjectSlice>)
    requires Wf(mask) && |mask.shape| == 3 && GroupsWf(g) && d < mask.shape[2]
    requires Planes(o, mask, background, assumeUniqueLabels, offset, time, d, g).Ok?
    ensures var slices := PlaneSlices(o, mask, background, assumeUniqueLabels, offset, d);
      && AddSlices(o, mask, d, offset.z, time, g, slices).Ok?
      && Planes(o, mask, background, assumeUniqueLabels, offset, time, d, g)
         == Planes(o, mask, background, assumeUniqueLabels, offset, time, d + 1,
                   AddSlices(o, mask, d, offset.z, time, g, slices).value)
  {
  }

  /** The plane loop from d on appends, under each label, exactly what the
      planes from d on store under it, plane after plane. */
  lemma {:induction false} PlanesEffect(o: Oracle, mask: NdArray, background: int, assumeUniqueLabels: bool,
                                         offset: Offset3, time: bool, d: nat, g: Groups<ObjectSlice>, key: int)
    requires Wf(mask) && |mask.shape| == 3 && GroupsWf(g)
    requires Planes(o, mask, background, assumeUniqueLabels, offset, time, d, g).Ok?
    ensures Get(Planes(o, mask, background, assumeUniqueLabels, offset, time, d, g).value, key)
            == Get(g, key) + StoredFrom(o, mask, background, assumeUniqueLabels, offset, time, d, key)
    decreases mask.shape[2] - d
  {
    if d < mask.shape[2] {
      var slices := PlaneSlices(o, mask, background, assumeUniqueLabels, offset, d);
      PlanesCons(o, mask, background, assumeUniqueLabels, offset, time, d, g);
      var added := AddSlices(o, mask, d, offset.z, time, g, slices).value;
      AddSlicesEffect(o, mask, d, offset.z, time, g, slices, key);
      PlanesEffect(o, mask, background, assumeUniqueLabels, offset, time, d + 1, added, key);
      ConcatAssoc(Get(g, key), StoredUnder(o, mask, d, offset.z, time, slices, key),
                  StoredFrom(o, mask, background, assumeUniqueLabels, offset, time, d + 1, key));
    }
  }

  /** The 2D labels of the slices, in order. */
  function Labels(slices: seq<ObjectSlice>): (ks: seq<int>)
    ensures |ks| == |slices| && forall k :: 0 <= k < |slices| ==> ks[k] == slices[k].labelValue
  {
    seq(|slices|, k requires 0 <= k < |slices| => slices[k].labelValue)
  }

  /** A successful inner loop inserts the plane's labels into the dictionary
      in the order of its slices. */
  lemma {:induction false} AddSlicesOrder(o: Oracle, mask: NdArray, d: int, z: int, time: bool,
                                           g: Groups<ObjectSlice>, slices: seq<ObjectSlice>)
    requires Wf(mask) && |mask.shape| == 3 && GroupsWf(g)
    requires AddSlices(o, mask, d, z, time, g, slices).Ok?
    ensures AddSlices(o, mask, d, z, time, g, slices).value.order == FirstSeen(g.order, Labels(slices))
    decreases |slices|
  {
    if slices != [] {
      var s := SliceOf(o, mask, d, z, time, slices[0]).value;
      AddSlicesCons(o, mask, d, z, time, g, slices, 0);
      AddSlicesOrder(o, mask, d, z, time, Add(g, slices[0].labelValue, s), slices[1..]);
      AddOrder(g, slices[0].labelValue, s, Labels(slices[1..]));
      assert Labels(slices) == [slices[0].labelValue] + Labels(slices[1..]);
    }
  }

  /** The 2D labels of the planes from d on, plane after plane and, in each
      plane, in the order of its slices. */
  function PlaneLabels(o: Oracle, mask: NdArray, background: int, assumeUniqueLabels: bool, offset: Offset3,
                       d: nat): seq<int>
    requires Wf(mask) && |mask.shape| == 3
    decreases mask.shape[2] - d
  {
    if d >= mask.shape[2] then []
    else Labels(PlaneSlices(o, mask, background, assumeUniqueLabels, offset, d))
         + PlaneLabels(o, mask, background, assumeUniqueLabels, offset, d + 1)
  }

  /** A successful plane loop inserts the labels in the order they first
      occur, plane after plane. */
  lemma {:induction false} PlanesOrder(o: Oracle, mask: NdArray, background: int, assumeUniqueLabels: bool,
                                        offset: Offset3, time: bool, d: nat, g: Groups<ObjectSlice>)
    requires Wf(mask) && |mask.shape| == 3 && GroupsWf(g)
    requires Planes(o, mask, background, assumeUniqueLabels, offset, time, d, g).Ok?
    ensures Planes(o, mask, background, assumeUniqueLabels, offset, time, d, g).value.order
            == FirstSeen(g.order, PlaneLabels(o, mask, background, assumeUniqueLabels, offset, d))
    decreases mask.shape[2] - d
  {
    if d < mask.shape[2] {
      var slices := PlaneSlices(o, mask, background, assumeUniqueLabels, offset, d);
      PlanesCons(o, mask, background, assumeUniqueLabels, offset, time, d, g);
      var added := AddSlices(o, mask, d, offset.z, time, g, slices).value;
      AddSlicesOrder(o, mask, d, offset.z, time, g, slices);
      PlanesOrder(o, mask, background, assumeUniqueLabels, offset, time, d + 1, added);
      FirstSeenAppend(g.order, Labels(slices), PlaneLabels(o, mask, background, assumeUniqueLabels, offset, d + 1));
    }
  }

  /** On success, the objects of mask_to_objects_3d are, for distinct labels
      `keys[i]`, exactly the slices all planes store under that label, in
      plane order; every label under which some plane stores a slice has its
      object, and no slice appears anywhere else. The labels come in the
      order of their first occurrence among the planes' 2D slices (plane
      after plane, each in slice order), as FirstSeenOrder spells out. */
  lemma Objects3dContents(o: Oracle, mask: NdArray, background: int, offset: Option<Offset3>,
                          assumeUniqueLabels: bool, time: bool) returns (keys: seq<int>)
    requires Wf(mask)
    requires Objects3d(o, mask, background, offset, assumeUniqueLabels, time).Ok?
    ensures |mask.shape| == 3 && offset.Some?
    ensures var objects := Objects3d(o, mask, background, offset, assumeUniqueLabels, time).value;
      && |keys| == |objects|
      && (forall i, j :: 0 <= i < j < |keys| ==> keys[i] != keys[j])
      && (forall i :: 0 <= i < |objects| ==>
            objects[i] == StoredFrom(o, mask, background, assumeUniqueLabels, offset.value, time, 0, keys[i]))
      && (forall key :: StoredFrom(o, mask, background, assumeUniqueLabels, offset.value, time, 0, key) != [] ==>
            key in keys)
    ensures keys == FirstSeen([], PlaneLabels(o, mask, background, assumeUniqueLabels, offset.value, 0))
  {
    var g := Planes(o, mask, background, assumeUniqueLabels, offset.value, time, 0, NoGroups()).value;
    keys := g.order;
    PlanesOrder(o, mask, background, assumeUniqueLabels, offset.value, time, 0, NoGroups());
    forall key | true
      ensures Get(g, key) == StoredFrom(o, mask, background, assumeUniqueLabels, offset.value, time, 0, key)
    {
      PlanesEffect(o, mask, background, assumeUniqueLabels, offset.value, time, 0, NoGroups(), key);
      assert Get(NoGroups<ObjectSlice>(), key) == [];
    }
  }

  // Errors

  lemma {:induction false} AddSlicesFails(o: Oracle, mask: NdArray, d: int, z: int, time: bool,
                                           g: Groups<ObjectSlice>, slices: seq<ObjectSlice>)
    requires Wf(mask) && |mask.shape| == 3 && GroupsWf(g)
    ensures var r := AddSlices(o, mask, d, z, time, g, slices);
      r.Err? ==> r.error in {NoExterior, NoInteriorPoint, OutOfBounds}
    decreases |slices|
  {
    if slices != [] {
      InnerPointSpec(o, slices[0].polygon);
      var s := SliceOf(o, mask, d, z, time, slices[0]);
      if s.Ok? {
        AddWf(g, slices[0].labelValue, s.value);
        AddSlicesFails(o, mask, d, z, time, Add(g, slices[0].labelValue, s.value), slices[1..]);
      }
    }
  }

  lemma {:induction false} PlanesFails(o: Oracle, mask: NdArray, background: int, assumeUniqueLabels: bool,
                                        offset: Offset3, time: bool, d: nat, g: Groups<ObjectSlice>)
    requires Wf(mask) && |mask.shape| == 3
    requires GroupsWf(g)
    ensures var r := Planes(o, mask, background, assumeUniqueLabels, offset, time, d, g);
      r.Err? ==> r.error in {RepairFailed, NoExterior, NoInteriorPoint, OutOfBounds}
    decreases mask.shape[2] - d
  {
    if d < mask.shape[2] {
      var plane := Plane(LabelImage(o, mask, background, assumeUniqueLabels), d);
      Objects2dFails(o, plane, background, Some(Shift(offset.x, offset.y)));
      var found := Objects2d(o, plane, background, Some(Shift(offset.x, offset.y)));
      if found.Ok? {
        AddSlicesFails(o, mask, d, offset.z, time, g, found.value);
        var added := AddSlices(o, mask, d, offset.z, time, g, found.value);
        if added.Ok? {
          PlanesFails(o, mask, background, assumeUniqueLabels, offset, time, d + 1, added.value);
        }
      }
    }
  }

  /** mask_to_objects_3d raises the dimension ValueError exactly when the
      mask is not 3-dimensional, and the TypeError of the default offset
      exactly when a 3-dimensional mask comes without an offset; the other
      failures are those of the 2D conversion and the label lookup. */
  lemma Objects3dFails(o: Oracle, mask: NdArray, background: int, offset: Option<Offset3>,
                       assumeUniqueLabels: bool, time: bool)
    requires Wf(mask)
    ensures var r := Objects3d(o, mask, background, offset, assumeUniqueLabels, time);
      r.Err? && r.error.DimensionError? <==> |mask.shape| != 3
    ensures |mask.shape| != 3 ==>
      Objects3d(o, mask, background, offset, assumeUniqueLabels, time) == Err(DimensionError(|mask.shape|))
    ensures var r := Objects3d(o, mask, background, offset, assumeUniqueLabels, time);
      r.Err? && r.error == MissingOffset <==> |mask.shape| == 3 && offset.None?
    ensures var r := Objects3d(o, mask, background, offset, assumeUniqueLabels, time);
      |mask.shape| == 3 && offset.Some? && r.Err? ==> r.error in {RepairFailed, NoExterior, NoInteriorPoint, OutOfBounds}
  {
    if |mask.shape| == 3 && offset.Some? {
      PlanesFails(o, mask, background, assumeUniqueLabels, offset.value, time, 0, NoGroups());
    }
  }

  // The loops as the source runs them

  /** The inner loop: append each slice of plane d under its 2D label. */
  method AppendSlices(o: Oracle, mask: NdArray, d: int, z: int, time: bool, objects: Groups<ObjectSlice>,
                      sliceObjects: seq<ObjectSlice>) returns (r: Result<Groups<ObjectSlice>>)
    requires Wf(mask) && |mask.shape| == 3 && GroupsWf(objects)
    ensures r == AddSlices(o, mask, d, z, time, objects, sliceObjects)
  {
    var groups := objects;
    assert sliceObjects[0..] == sliceObjects;
    for k := 0 to |sliceObjects|
      invariant GroupsWf(groups)
      invariant AddSlices(o, mask, d, z, time, objects, sliceObjects)
             == AddSlices(o, mask, d, z, time, groups, sliceObjects[k..])
    {
      var sliceObject := sliceObjects[k];
      assert sliceObjects[k..][0] == sliceObject && sliceObjects[k..][1..] == sliceObjects[k + 1..];
      var inner := GetPolygonInnerPoint(o, sliceObject.polygon);
      if inner.Err? {
        return Err(inner.error);
      }
      var x, y := inner.value.x, inner.value.y;
      var key := sliceObject.labelValue;
      var value := Index3(mask, y, x, d);
      if value.Err? {
        return Err(value.error);
      }
      var stored := ObjectSlice(sliceObject.polygon, value.value,
                                if time then Some(d + z) else None, if time then None else Some(d + z));
      assert SliceOf(o, mask, d, z, time, sliceObject) == Ok(stored);
      AddWf(groups, key, stored);
      groups := Add(groups, key, stored);
    }
    assert sliceObjects[|sliceObjects|..] == [];
    return Ok(groups);
  }

  /** mask_to_objects_3d, as the source runs it. */
  method MaskToObjects3d(o: Oracle, mask: NdArray, background: int, offset: Option<Offset3>,
                         assumeUniqueLabels: bool, time: bool) returns (r: Result<seq<seq<ObjectSlice>>>)
    requires Wf(mask)
    ensures r == Objects3d(o, mask, background, offset, assumeUniqueLabels, time)
  {
    if |mask.shape| != 3 {
      return Err(DimensionError(|mask.shape|));
    }
    var labelImg := LabelImage(o, mask, background, assumeUniqueLabels);
    var depth := labelImg.shape[2];
    if offset.None? {
      return Err(MissingOffset);
    }
    var offsetXy := Shift(offset.value.x, offset.value.y);
    var offsetZ := offset.value.z;
    var objects: Groups<ObjectSlice> := NoGroups();
    for d := 0 to depth
      invariant GroupsWf(objects)
      invariant Planes(o, mask, background, assumeUniqueLabels, offset.value, time, 0, NoGroups())
             == Planes(o, mask, background, assumeUniqueLabels, offset.value, time, d, objects)
    {
      var sliceObjects :- MaskToObjects2d(o, Plane(labelImg, d), background, Some(offsetXy));
      objects :- AppendSlices(o, mask, d, offsetZ, time, objects, sliceObjects);
    }
    return Ok(Values(objects));
  }
}
