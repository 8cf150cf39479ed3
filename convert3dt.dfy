/** mask_to_objects_3dt: convert a (time, row, column, depth) volume one
    timestep at a time with the 3D converter, and gather, per label, one
    group of slices per timestep, each slice re-stamped with its time. */
module Convert3dt {
  import opened Outcomes
  import opened Raster
  import opened Shapes
  import opened Collaborators
  import opened Convert3d
  import opened Grouping

  /** A (t, x, y, z) offset: `offset[0]` is added to the timestep,
      `offset[1:]` goes to the 3D converter. */
  datatype Offset4 = Offset4(t: int, x: real, y: real, z: int)

  function Spatial(offset: Offset4): Offset3
  {
    Offset3(offset.x, offset.y, offset.z)
  }

  /** `slices_3dt`: the slices of one object at one timestep with their time
      set to v. */
  function Retimed(slices: seq<ObjectSlice>, v: int): seq<ObjectSlice>
  {
    seq(|slices|, k requires 0 <= k < |slices| =>
      ObjectSlice(slices[k].polygon, slices[k].labelValue, Some(v), slices[k].depth))
  }

  /** Re-stamping keeps every slice's polygon, label and depth and sets its
      time. */
  lemma RetimedKeeps(slices: seq<ObjectSlice>, v: int)
    ensures |Retimed(slices, v)| == |slices|
    ensures forall k :: 0 <= k < |slices| ==>
      var s := Retimed(slices, v)[k];
      s.polygon == slices[k].polygon && s.labelValue == slices[k].labelValue
      && s.depth == slices[k].depth && s.time == Some(v)
  {
  }

  /** The loop over one timestep's objects: each goes, re-stamped, under the
      label of its first slice. */
  function AddTimestep(g: Groups<seq<ObjectSlice>>, objects: seq<seq<ObjectSlice>>, v: int)
    : (r: Groups<seq<ObjectSlice>>)
    requires GroupsWf(g)
    requires forall i :: 0 <= i < |objects| ==> |objects[i]| > 0
    ensures GroupsWf(r)
    decreases |objects|
  {
    if objects == [] then g
    else
      var key := objects[0][0].labelValue;
      AddWf(g, key, Retimed(objects[0], v));
      assert forall i :: 1 <= i < |objects| ==> objects[1..][i - 1] == objects[i];
      AddTimestep(Add(g, key, Retimed(objects[0], v)), objects[1..], v)
  }

  /** Every list holds at least one slice, as the 3D converter's objects do. */
  predicate NonEmptyLists(objects: seq<seq<ObjectSlice>>)
  {
    forall i :: 0 <= i < |objects| ==> |objects[i]| > 0
  }

  /** Per-timestep outcomes of the 3D converter whose successes are lists of
      nonempty objects. */
  predicate Converted(results: seq<Result<seq<seq<ObjectSlice>>>>)
  {
    forall t :: 0 <= t < |results| && results[t].Ok? ==> NonEmptyLists(results[t].value)
  }

  /** The outcome of the 3D converter on each timestep volume `mask[t]`,
      with `offset[1:]` and unique labels assumed. */
  function FrameResults(o: Oracle, mask: NdArray, background: int, offset: Offset4)
    : (results: seq<Result<seq<seq<ObjectSlice>>>>)
    requires Wf(mask) && |mask.shape| == 4
    ensures |results| == mask.shape[0] && Converted(results)
    ensures forall t {:trigger Frame(mask, t)} :: 0 <= t < |results| ==>
      results[t] == Objects3d(o, Frame(mask, t), background, Some(Spatial(offset)), true, false)
  {
    seq(mask.shape[0], t requires 0 <= t < mask.shape[0] =>
      Objects3d(o, Frame(mask, t), background, Some(Spatial(offset)), true, false))
  }

  /** The timestep loop from t on: the first timestep whose conversion fails
      stops it; each other appends its objects stamped with `t + tz`. */
  function Frames(results: seq<Result<seq<seq<ObjectSlice>>>>, tz: int, t: nat,
                  g: Groups<seq<ObjectSlice>>): (r: Result<Groups<seq<ObjectSlice>>>)
    requires Converted(results) && GroupsWf(g)
    ensures r.Ok? ==> GroupsWf(r.value)
    decreases |results| - t
  {
    if t >= |results| then Ok(g)
    else
      match results[t]
      case Err(e) => Err(e)
      case Ok(objects) => Frames(results, tz, t + 1, AddTimestep(g, objects, t + tz))
  }

  /** The outcome of mask_to_objects_3dt with each timestep converted from
      its own volume `mask[t]`. */
  function Objects3dt(o: Oracle, mask: NdArray, background: int, offset: Option<Offset4>)
    : (r: Result<seq<seq<seq<ObjectSlice>>>>)
    requires Wf(mask)
  {
    if |mask.shape| != 4 then Err(DimensionError(|mask.shape|))
    else if offset.None? then Err(MissingOffset)
    else
      match Frames(FrameResults(o, mask, background, offset.value), offset.value.t, 0, NoGroups())
      case Err(e) => Err(e)
      case Ok(g) => Ok(Values(g))
  }

  // The code as written: the whole 4-dimensional mask goes to the 3D converter

  /** The timestep loop as written: the 3D converter is given the whole
      4-dimensional mask, rejects it, and the loop stops at its first
      timestep. */
  function FramesAsWritten(o: Oracle, mask: NdArray, background: int, offset: Offset4,
                           g: Groups<seq<ObjectSlice>>): Result<Groups<seq<ObjectSlice>>>
    requires Wf(mask) && |mask.shape| == 4
  {
    if mask.shape[0] == 0 then Ok(g)
    else
      match Objects3d(o, mask, background, Some(Spatial(offset)), true, false)
      case Err(e) => Err(e)
      case Ok(_) => assert false; Ok(g)
  }

  function Objects3dtAsWritten(o: Oracle, mask: NdArray, background: int, offset: Option<Offset4>)
    : Result<seq<seq<seq<ObjectSlice>>>>
    requires Wf(mask)
  {
    if |mask.shape| != 4 then Err(DimensionError(|mask.shape|))
    else if offset.None? then Err(MissingOffset)
    else
      match FramesAsWritten(o, mask, background, offset.value, NoGroups())
      case Err(e) => Err(e)
      case Ok(g) => Ok(Values(g))
  }

  /** As written, every 4-dimensional mask with at least one timestep and an
      offset is rejected by the 3D converter's dimension check, and one with
      no timestep gives no objects. */
  lemma AsWrittenRejectsEveryVolume(o: Oracle, mask: NdArray, background: int, offset: Option<Offset4>)
    requires Wf(mask) && |mask.shape| == 4 && offset.Some?
    ensures mask.shape[0] > 0 ==> Objects3dtAsWritten(o, mask, background, offset) == Err(DimensionError(4))
    ensures mask.shape[0] == 0 ==> Objects3dtAsWritten(o, mask, background, offset) == Ok([])
  {
  }

  // Errors of the corrected definition

  /** One step of the timestep loop. */
  lemma FramesStep(results: seq<Result<seq<seq<ObjectSlice>>>>, tz: int, t: nat, g: Groups<seq<ObjectSlice>>)
    requires Converted(results) && GroupsWf(g) && t < |results|
    ensures results[t].Err? ==> Frames(results, tz, t, g) == Err(results[t].error)
    ensures results[t].Ok? ==>
      Frames(results, tz, t, g) == Frames(results, tz, t + 1, AddTimestep(g, results[t].value, t + tz))
  {
  }

  /** A successful timestep hands the loop on to the next one with its
      objects appended. */
  lemma FramesAppend(results: seq<Result<seq<seq<ObjectSlice>>>>, tz: int, t: nat,
                     g: Groups<seq<ObjectSlice>>, next: Groups<seq<ObjectSlice>>)
    requires Converted(results) && GroupsWf(g) && t < |results| && results[t].Ok?
    requires next == AddTimestep(g, results[t].value, t + tz)
    ensures GroupsWf(next) && Frames(results, tz, t, g) == Frames(results, tz, t + 1, next)
  {
    FramesStep(results, tz, t, g);
  }

  /** The timestep loop succeeds exactly when every remaining timestep
      converts. */
  lemma {:induction false} FramesOk(results: seq<Result<seq<seq<ObjectSlice>>>>, tz: int, t: nat,
                                     g: Groups<seq<ObjectSlice>>)
    requires Converted(results) && GroupsWf(g)
    ensures Frames(results, tz, t, g).Ok? <==> forall k :: t <= k < |results| ==> results[k].Ok?
    decreases |results| - t
  {
    if t < |results| && results[t].Ok? {
      FramesOk(results, tz, t + 1, AddTimestep(g, results[t].value, t + tz));
    }
  }

  /** A failing timestep loop fails with the error of the first timestep
      that does not convert. */
  lemma {:induction false} FramesFirstFailure(results: seq<Result<seq<seq<ObjectSlice>>>>, tz: int, t: nat,
                                               g: Groups<seq<ObjectSlice>>) returns (k: nat)
    requires Converted(results) && GroupsWf(g)
    requires Frames(results, tz, t, g).Err?
    ensures t <= k < |results| && results[k] == Err(Frames(results, tz, t, g).error)
    ensures forall j :: t <= j < k ==> results[j].Ok?
    decreases |results| - t
  {
    if results[t].Err? {
      k := t;
    } else {
      k := FramesFirstFailure(results, tz, t + 1, AddTimestep(g, results[t].value, t + tz));
    }
  }

  /** With each timestep cut from the mask, the dimension ValueError is
      raised exactly when the mask is not 4-dimensional, and the TypeError of
      the default offset exactly when a 4-dimensional mask comes without an
      offset. */
  lemma Objects3dtFails(o: Oracle, mask: NdArray, background: int, offset: Option<Offset4>)
    requires Wf(mask)
    ensures var r := Objects3dt(o, mask, background, offset);
      r.Err? && r.error.DimensionError? <==> |mask.shape| != 4
    ensures |mask.shape| != 4 ==> Objects3dt(o, mask, background, offset) == Err(DimensionError(|mask.shape|))
    ensures var r := Objects3dt(o, mask, background, offset);
      r.Err? && r.error == MissingOffset <==> |mask.shape| == 4 && offset.None?
    ensures var r := Objects3dt(o, mask, background, offset);
      |mask.shape| == 4 && offset.Some? && r.Err? ==>
        && r.error in {RepairFailed, NoExterior, NoInteriorPoint, OutOfBounds}
        && exists t :: 0 <= t < mask.shape[0] &&
             Objects3d(o, Frame(mask, t), background, Some(Spatial(offset.value)), true, false) == Err(r.error)
  {
    if |mask.shape| == 4 && offset.Some? {
      var results := FrameResults(o, mask, background, offset.value);
      if Frames(results, offset.value.t, 0, NoGroups()).Err? {
        var t := FramesFirstFailure(results, offset.value.t, 0, NoGroups());
        Objects3dFails(o, Frame(mask, t), background, Some(Spatial(offset.value)), true, false);
      }
    }
  }

  // What one timestep appends

  /** The re-stamped objects of one timestep whose label is `key`, in order. */
  function Appended(objects: seq<seq<ObjectSlice>>, key: int, v: int): seq<seq<ObjectSlice>>
    requires forall i :: 0 <= i < |objects| ==> |objects[i]| > 0
  {
    if objects == [] then []
    else
      (if objects[0][0].labelValue == key then [Retimed(objects[0], v)] else [])
      + Appended(objects[1..], key, v)
  }

  /** One timestep appends, under each label, the re-stamped objects of that
      label in the order the 3D converter returned them, and nothing else;
      the lists of the other labels are unchanged. */
  lemma {:induction false} AddTimestepEffect(g: Groups<seq<ObjectSlice>>, objects: seq<seq<ObjectSlice>>,
                                              v: int, key: int)
    requires GroupsWf(g) && forall i :: 0 <= i < |objects| ==> |objects[i]| > 0
    ensures Get(AddTimestep(g, objects, v), key) == Get(g, key) + Appended(objects, key, v)
    decreases |objects|
  {
    if objects != [] {
      var first := objects[0][0].labelValue;
      var r0 := Retimed(objects[0], v);
      var h := Add(g, first, r0);
      var here: seq<seq<ObjectSlice>> := if first == key then [r0] else [];
      AddWf(g, first, r0);
      AddEffect(g, first, r0, key);
      assert Get(h, key) == Get(g, key) + here;
      assert forall i :: 1 <= i < |objects| ==> objects[1..][i - 1] == objects[i];
      assert AddTimestep(g, objects, v) == AddTimestep(h, objects[1..], v);
      assert Appended(objects, key, v) == here + Appended(objects[1..], key, v);
      AddTimestepEffect(h, objects[1..], v, key);
      ConcatAssoc(Get(g, key), here, Appended(objects[1..], key, v));
    }
  }

  /** Objects whose first labels all differ give at most one group per label. */
  lemma {:induction false} AppendedAtMostOne(objects: seq<seq<ObjectSlice>>, key: int, v: int)
    requires forall i :: 0 <= i < |objects| ==> |objects[i]| > 0
    requires forall i, j :: 0 <= i < j < |objects| ==> objects[i][0].labelValue != objects[j][0].labelValue
    ensures |Appended(objects, key, v)| <= 1
    decreases |objects|
  {
    if objects != [] {
      assert forall i :: 1 <= i < |objects| ==> objects[1..][i - 1] == objects[i];
      if objects[0][0].labelValue == key {
        AppendedNone(objects[1..], key, v);
      } else {
        AppendedAtMostOne(objects[1..], key, v);
      }
    }
  }

  lemma {:induction false} AppendedNone(objects: seq<seq<ObjectSlice>>, key: int, v: int)
    requires forall i :: 0 <= i < |objects| ==> |objects[i]| > 0 && objects[i][0].labelValue != key
    ensures Appended(objects, key, v) == []
    decreases |objects|
  {
    if objects != [] {
      assert forall i :: 1 <= i < |objects| ==> objects[1..][i - 1] == objects[i];
      AppendedNone(objects[1..], key, v);
    }
  }

  /** What the timesteps from t on append under `key`, in time order. */
  function FramesFrom(results: seq<Result<seq<seq<ObjectSlice>>>>, tz: int, t: nat, key: int)
    : seq<seq<ObjectSlice>>
    requires Converted(results)
    decreases |results| - t
  {
    if t >= |results| then []
    else (if results[t].Ok? then Appended(results[t].value, key, t + tz) else [])
         + FramesFrom(results, tz, t + 1, key)
  }

  /** A successful timestep loop from t on appends, under each label,
      exactly what the timesteps from t on append under it, in time order. */
  lemma {:induction false} FramesEffect(results: seq<Result<seq<seq<ObjectSlice>>>>, tz: int, t: nat,
                                         g: Groups<seq<ObjectSlice>>, key: int)
    requires Converted(results) && GroupsWf(g)
    requires Frames(results, tz, t, g).Ok?
    ensures Get(Frames(results, tz, t, g).value, key) == Get(g, key) + FramesFrom(results, tz, t, key)
    decreases |results| - t
  {
    if t < |results| {
      var h := AddTimestep(g, results[t].value, t + tz);
      AddTimestepEffect(g, results[t].value, t + tz, key);
      FramesEffect(results, tz, t + 1, h, key);
      ConcatAssoc(Get(g, key), Appended(results[t].value, key, t + tz), FramesFrom(results, tz, t + 1, key));
    }
  }

  /** The labels of one timestep's objects (each that of its first slice),
      in order. */
  function Heads(objects: seq<seq<ObjectSlice>>): (ks: seq<int>)
    requires forall i :: 0 <= i < |objects| ==> |objects[i]| > 0
    ensures |ks| == |objects| && forall i :: 0 <= i < |objects| ==> ks[i] == objects[i][0].labelValue
  {
    seq(|objects|, i requires 0 <= i < |objects| => objects[i][0].labelValue)
  }

  /** One timestep inserts its objects' labels into the dictionary in the
      order the 3D converter returned them. */
  lemma {:induction false} AddTimestepOrder(g: Groups<seq<ObjectSlice>>, objects: seq<seq<ObjectSlice>>, v: int)
    requires GroupsWf(g) && forall i :: 0 <= i < |objects| ==> |objects[i]| > 0
    ensures AddTimestep(g, objects, v).order == FirstSeen(g.order, Heads(objects))
    decreases |objects|
  {
    if objects != [] {
      var first := objects[0][0].labelValue;
      var r0 := Retimed(objects[0], v);
      AddWf(g, first, r0);
      assert forall i :: 1 <= i < |objects| ==> objects[1..][i - 1] == objects[i];
      assert AddTimestep(g, objects, v) == AddTimestep(Add(g, first, r0), objects[1..], v);
      AddTimestepOrder(Add(g, first, r0), objects[1..], v);
      AddOrder(g, first, r0, Heads(objects[1..]));
      assert Heads(objects) == [first] + Heads(objects[1..]);
    }
  }

  /** The labels of the timesteps from t on, timestep after timestep. */
  function TimestepLabels(results: seq<Result<seq<seq<ObjectSlice>>>>, t: nat): seq<int>
    requires Converted(results)
    decreases |results| - t
  {
    if t >= |results| then []
    else (if results[t].Ok? then Heads(results[t].value) else []) + TimestepLabels(results, t + 1)
  }

  /** A successful timestep loop inserts the labels in the order they first
      occur, timestep after timestep. */
  lemma {:induction false} FramesOrder(results: seq<Result<seq<seq<ObjectSlice>>>>, tz: int, t: nat,
                                        g: Groups<seq<ObjectSlice>>)
    requires Converted(results) && GroupsWf(g)
    requires Frames(results, tz, t, g).Ok?
    ensures Frames(results, tz, t, g).value.order == FirstSeen(g.order, TimestepLabels(results, t))
    decreases |results| - t
  {
    if t < |results| {
      var h := AddTimestep(g, results[t].value, t + tz);
      AddTimestepOrder(g, results[t].value, t + tz);
      FramesOrder(results, tz, t + 1, h);
      FirstSeenAppend(g.order, Heads(results[t].value), TimestepLabels(results, t + 1));
    }
  }

  /** On success, the objects of mask_to_objects_3dt are, for distinct labels
      `keys[i]`, exactly the re-stamped 3D objects of that label, timestep
      after timestep; every label some timestep has an object for has its
      entry. The labels come in the order of their first occurrence among the
      timesteps' 3D objects (timestep after timestep, each in the 3D
      converter's order), as FirstSeenOrder spells out. */
  lemma Objects3dtContents(o: Oracle, mask: NdArray, background: int, offset: Option<Offset4>)
    returns (keys: seq<int>)
    requires Wf(mask)
    requires Objects3dt(o, mask, background, offset).Ok?
    ensures |mask.shape| == 4 && offset.Some?
    ensures var objects := Objects3dt(o, mask, background, offset).value;
      var results := FrameResults(o, mask, background, offset.value);
      && |keys| == |objects|
      && (forall i, j :: 0 <= i < j < |keys| ==> keys[i] != keys[j])
      && (forall i :: 0 <= i < |objects| ==> objects[i] == FramesFrom(results, offset.value.t, 0, keys[i]))
      && (forall key :: FramesFrom(results, offset.value.t, 0, key) != [] ==> key in keys)
      && keys == FirstSeen([], TimestepLabels(results, 0))
  {
    var results := FrameResults(o, mask, background, offset.value);
    var g := Frames(results, offset.value.t, 0, NoGroups()).value;
    keys := g.order;
    FramesOrder(results, offset.value.t, 0, NoGroups());
    forall key | true
      ensures Get(g, key) == FramesFrom(results, offset.value.t, 0, key)
    {
      FramesEffect(results, offset.value.t, 0, NoGroups(), key);
      assert Get(NoGroups<seq<ObjectSlice>>(), key) == [];
    }
  }

  // The timeline of one label

  /** A nonempty group of slices of one timestep, all with the given label
      and the time of the first, and each with a depth in [z, z + depth). */
  predicate StampedGroup(grp: seq<ObjectSlice>, key: int, z: int, depth: int)
  {
    && |grp| > 0
    && forall m :: 0 <= m < |grp| ==>
         && grp[m].labelValue == key && grp[m].time == grp[0].time
         && grp[m].depth.Some? && z <= grp[m].depth.value < z + depth
  }

  /** The groups of one label: stamped with times in [tz, tz + hi), strictly
      increasing along the list. */
  predicate TimelineList(l: seq<seq<ObjectSlice>>, key: int, tz: int, hi: int, z: int, depth: int)
  {
    && (forall j :: 0 <= j < |l| ==>
          StampedGroup(l[j], key, z, depth) && l[j][0].time.Some? && tz <= l[j][0].time.value < tz + hi)
    && (forall i, j :: 0 <= i < j < |l| ==> l[i][0].time.value < l[j][0].time.value)
  }

  predicate Timeline(g: Groups<seq<ObjectSlice>>, tz: int, hi: int, z: int, depth: int)
  {
    forall k :: k in g.members ==> TimelineList(g.members[k], k, tz, hi, z, depth)
  }

  /** The groups one timestep appends are stamped with its time. */
  lemma {:induction false} AppendedStamped(objects: seq<seq<ObjectSlice>>, key: int, v: int, z: int, depth: int)
    requires forall i :: 0 <= i < |objects| ==> |objects[i]| > 0
    requires forall i :: 0 <= i < |objects| ==> LayeredList(objects[i], z, false, depth)
    requires forall i, j :: 0 <= i < |objects| && 0 <= j < |objects[i]| ==>
      objects[i][j].labelValue == objects[i][0].labelValue
    ensures forall j :: 0 <= j < |Appended(objects, key, v)| ==>
      StampedGroup(Appended(objects, key, v)[j], key, z, depth) && Appended(objects, key, v)[j][0].time == Some(v)
    decreases |objects|
  {
    if objects != [] {
      assert forall i :: 1 <= i < |objects| ==> objects[1..][i - 1] == objects[i];
      AppendedStamped(objects[1..], key, v, z, depth);
      if objects[0][0].labelValue == key {
        var r := Retimed(objects[0], v);
        RetimedKeeps(objects[0], v);
        assert StampedGroup(r, key, z, depth);
      }
    }
  }

  /** A list of groups extended with at most one group of a later time stays
      a timeline. */
  lemma TimelineExtend(l: seq<seq<ObjectSlice>>, extra: seq<seq<ObjectSlice>>, key: int, tz: int, t: nat,
                       z: int, depth: int)
    requires TimelineList(l, key, tz, t, z, depth)
    requires |extra| <= 1
    requires forall j :: 0 <= j < |extra| ==> StampedGroup(extra[j], key, z, depth) && extra[j][0].time == Some(t + tz)
    ensures TimelineList(l + extra, key, tz, t + 1, z, depth)
  {
    var n := l + extra;
    assert forall j :: 0 <= j < |l| ==> n[j] == l[j];
    assert forall j :: |l| <= j < |n| ==> n[j] == extra[j - |l|];
  }

  /** The facts about one timestep's 3D objects that the timeline needs. */
  predicate FrameObjects(objects: seq<seq<ObjectSlice>>, z: int, depth: int)
  {
    && (forall i :: 0 <= i < |objects| ==> |objects[i]| > 0 && LayeredList(objects[i], z, false, depth))
    && (forall i, j :: 0 <= i < |objects| && 0 <= j < |objects[i]| ==>
          objects[i][j].labelValue == objects[i][0].labelValue)
    && (forall i, j :: 0 <= i < j < |objects| ==> objects[i][0].labelValue != objects[j][0].labelValue)
  }

  lemma AddTimestepTimeline(g: Groups<seq<ObjectSlice>>, objects: seq<seq<ObjectSlice>>, tz: int, t: nat,
                            z: int, depth: int)
    requires GroupsWf(g) && Timeline(g, tz, t, z, depth) && FrameObjects(objects, z, depth)
    ensures Timeline(AddTimestep(g, objects, t + tz), tz, t + 1, z, depth)
  {
    var h := AddTimestep(g, objects, t + tz);
    forall k | k in h.members
      ensures TimelineList(h.members[k], k, tz, t + 1, z, depth)
    {
      LabelTimeline(g, objects, tz, t, z, depth, k);
    }
  }

  /** The list of one label after a timestep is a timeline one step longer. */
  lemma LabelTimeline(g: Groups<seq<ObjectSlice>>, objects: seq<seq<ObjectSlice>>, tz: int, t: nat,
                      z: int, depth: int, k: int)
    requires GroupsWf(g) && Timeline(g, tz, t, z, depth) && FrameObjects(objects, z, depth)
    ensures TimelineList(Get(AddTimestep(g, objects, t + tz), k), k, tz, t + 1, z, depth)
  {
    AddTimestepEffect(g, objects, t + tz, k);
    assert TimelineList(Get(g, k), k, tz, t, z, depth);
    TimelineAppended(Get(g, k), objects, k, tz, t, z, depth);
  }

  /** A timeline followed by what one timestep appends under its label is a
      timeline one step longer. */
  lemma TimelineAppended(l: seq<seq<ObjectSlice>>, objects: seq<seq<ObjectSlice>>, k: int, tz: int, t: nat,
                         z: int, depth: int)
    requires TimelineList(l, k, tz, t, z, depth) && FrameObjects(objects, z, depth)
    ensures TimelineList(l + Appended(objects, k, t + tz), k, tz, t + 1, z, depth)
  {
    AppendedAtMostOne(objects, k, t + tz);
    AppendedStamped(objects, k, t + tz, z, depth);
    TimelineExtend(l, Appended(objects, k, t + tz), k, tz, t, z, depth);
  }

  /** The timestep loop keeps the timeline, up to the last timestep. */
  lemma {:induction false} FramesTimeline(results: seq<Result<seq<seq<ObjectSlice>>>>, tz: int, t: nat,
                                           g: Groups<seq<ObjectSlice>>, z: int, depth: int)
    requires Converted(results) && GroupsWf(g)
    requires forall k :: 0 <= k < |results| && results[k].Ok? ==> FrameObjects(results[k].value, z, depth)
    requires t <= |results| && Timeline(g, tz, t, z, depth)
    ensures var r := Frames(results, tz, t, g);
      r.Ok? ==> Timeline(r.value, tz, |results|, z, depth)
    decreases |results| - t
  {
    if t < |results| && results[t].Ok? {
      AddTimestepTimeline(g, results[t].value, tz, t, z, depth);
      FramesTimeline(results, tz, t + 1, AddTimestep(g, results[t].value, t + tz), z, depth);
    }
  }

  /** Every object mask_to_objects_3dt returns (reading each timestep from
      `mask[t]`) is a list of groups, one per timestep at which it appears,
      in strictly increasing time inside [offset_t, offset_t + duration);
      every slice of a group carries the group's time, the object's label and
      a depth inside [offset_z, offset_z + depth); different objects carry
      different labels. */
  lemma Objects3dtTimeline(o: Oracle, mask: NdArray, background: int, offset: Option<Offset4>)
    requires Wf(mask)
    requires Objects3dt(o, mask, background, offset).Ok?
    ensures |mask.shape| == 4 && offset.Some?
    ensures var objects := Objects3dt(o, mask, background, offset).value;
      && (forall i :: 0 <= i < |objects| ==>
            |objects[i]| > 0 && |objects[i][0]| > 0
            && TimelineList(objects[i], objects[i][0][0].labelValue, offset.value.t, mask.shape[0],
                            offset.value.z, mask.shape[3]))
      && (forall i, j :: 0 <= i < j < |objects| ==> objects[i][0][0].labelValue != objects[j][0][0].labelValue)
  {
    var results := FrameResults(o, mask, background, offset.value);
    forall t | 0 <= t < |results| && results[t].Ok?
      ensures FrameObjects(results[t].value, offset.value.z, mask.shape[3])
    {
      Objects3dLayered(o, Frame(mask, t), background, Some(Spatial(offset.value)), true, false);
      Objects3dUniqueLabels(o, Frame(mask, t), background, Some(Spatial(offset.value)), false);
    }
    var g := Frames(results, offset.value.t, 0, NoGroups()).value;
    FramesTimeline(results, offset.value.t, 0, NoGroups(), offset.value.z, mask.shape[3]);
    var objects: seq<seq<seq<ObjectSlice>>> := Values(g);
    forall i | 0 <= i < |objects|
      ensures |objects[i]| > 0 && |objects[i][0]| > 0 && objects[i][0][0].labelValue == g.order[i]
      ensures TimelineList(objects[i], g.order[i], offset.value.t, mask.shape[0], offset.value.z, mask.shape[3])
    {
      var l := g.members[g.order[i]];
      assert objects[i] == l && |l| > 0;
      assert TimelineList(l, g.order[i], offset.value.t, mask.shape[0], offset.value.z, mask.shape[3]);
      assert StampedGroup(l[0], g.order[i], offset.value.z, mask.shape[3]);
    }
  }

  // The loops as the source runs them

  /** The loop over one timestep's objects. */
  method AppendTimestep(objects: Groups<seq<ObjectSlice>>, timeObjects: seq<seq<ObjectSlice>>, v: int)
    returns (r: Groups<seq<ObjectSlice>>)
    requires GroupsWf(objects) && forall i :: 0 <= i < |timeObjects| ==> |timeObjects[i]| > 0
    ensures r == AddTimestep(objects, timeObjects, v)
  {
    r := objects;
    assert timeObjects[0..] == timeObjects;
    for i := 0 to |timeObjects|
      invariant GroupsWf(r)
      invariant AddTimestep(objects, timeObjects, v) == AddTimestep(r, timeObjects[i..], v)
    {
      var timeSlices := timeObjects[i];
      assert timeObjects[i..][0] == timeSlices && timeObjects[i..][1..] == timeObjects[i + 1..];
      var key := timeSlices[0].labelValue;
      var slices3dt := Retimed(timeSlices, v);
      AddWf(r, key, slices3dt);
      r := Add(r, key, slices3dt);
    }
    assert timeObjects[|timeObjects|..] == [];
  }

  /** `results` are the 3D converter's outcomes on the timestep volumes. */
  predicate ConvertsFrames(o: Oracle, mask: NdArray, background: int, offset: Offset4,
                           results: seq<Result<seq<seq<ObjectSlice>>>>)
    requires Wf(mask) && |mask.shape| == 4 && |results| == mask.shape[0]
  {
    forall t {:trigger Frame(mask, t)} :: 0 <= t < |results| ==>
      results[t] == Objects3d(o, Frame(mask, t), background, Some(Spatial(offset)), true, false)
  }

  /** One pass of the timestep loop: the 3D converter on `mask[t]`. */
  method ConvertTimestep(o: Oracle, mask: NdArray, background: int, offset: Offset4, t: nat,
                         ghost results: seq<Result<seq<seq<ObjectSlice>>>>)
    returns (r: Result<seq<seq<ObjectSlice>>>)
    requires Wf(mask) && |mask.shape| == 4 && |results| == mask.shape[0] && t < mask.shape[0]
    requires ConvertsFrames(o, mask, background, offset, results)
    ensures r == results[t]
  {
    r := MaskToObjects3d(o, Frame(mask, t), background, Some(Spatial(offset)), true, false);
  }

  /** The timestep loop of mask_to_objects_3dt, converting each `mask[t]`
      with the 3D converter; `results` names those conversions' outcomes. */
  method ConvertFrames(o: Oracle, mask: NdArray, background: int, offset: Offset4,
                       ghost results: seq<Result<seq<seq<ObjectSlice>>>>)
    returns (r: Result<Groups<seq<ObjectSlice>>>)
    requires Wf(mask) && |mask.shape| == 4 && |results| == mask.shape[0] && Converted(results)
    requires ConvertsFrames(o, mask, background, offset, results)
    ensures r == Frames(results, offset.t, 0, NoGroups())
  {
    var objects: Groups<seq<ObjectSlice>> := NoGroups();
    for t := 0 to mask.shape[0]
      invariant GroupsWf(objects)
      invariant Frames(results, offset.t, 0, NoGroups()) == Frames(results, offset.t, t, objects)
    {
      var timeObjects := ConvertTimestep(o, mask, background, offset, t, results);
      if timeObjects.Err? {
        FramesStep(results, offset.t, t, objects);
        return Err(timeObjects.error);
      }
      var next := AppendTimestep(objects, timeObjects.value, t + offset.t);
      FramesAppend(results, offset.t, t, objects, next);
      objects := next;
    }
    return Ok(objects);
  }

  /** mask_to_objects_3dt with each timestep converted from `mask[t]`. */
  method MaskToObjects3dt(o: Oracle, mask: NdArray, background: int, offset: Option<Offset4>)
    returns (r: Result<seq<seq<seq<ObjectSlice>>>>)
    requires Wf(mask)
    ensures r == Objects3dt(o, mask, background, offset)
  {
    if |mask.shape| != 4 {
      return Err(DimensionError(|mask.shape|));
    }
    if offset.None? {
      return Err(MissingOffset);
    }
    var objects :- ConvertFrames(o, mask, background, offset.value, FrameResults(o, mask, background, offset.value));
    return Ok(Values(objects));
  }
}
