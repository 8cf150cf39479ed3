/** mask_to_objects_2d: binarise a 2-dimensional label mask, trace it into
    polygons, and read each polygon's label from the mask at a pixel found
    inside it. */
module Convert2d {
  import opened Outcomes
  import opened Raster
  import opened Shapes
  import opened Collaborators
  import opened Tracer
  import opened LabelRecovery

  /** The mask value at the inner pixel of g: `x, y = inner point; mask[y, x]`. */
  function LabelOf(o: Oracle, mask: NdArray, g: Geometry): Result<int>
    requires Wf(mask) && |mask.shape| == 2
  {
    match InnerPoint(o, g)
    case Err(e) => Err(e)
    case Ok(px) => Index2(mask, px.y, px.x)
  }

  /** The loop over the traced polygons: one slice per polygon, without time
      or depth; the first polygon whose label cannot be read stops it. */
  function Labelled(o: Oracle, mask: NdArray, polygons: seq<Geometry>): Result<seq<ObjectSlice>>
    requires Wf(mask) && |mask.shape| == 2
  {
    if polygons == [] then Ok([])
    else
      match LabelOf(o, mask, polygons[0])
      case Err(e) => Err(e)
      case Ok(v) => Prepend([ObjectSlice(polygons[0], v, None, None)], Labelled(o, mask, polygons[1..]))
  }

  /** The outcome of mask_to_objects_2d(mask, background, offset). */
  function Objects2d(o: Oracle, mask: NdArray, background: int, offset: Option<Shift>): Result<seq<ObjectSlice>>
    requires Wf(mask)
  {
    if |mask.shape| != 2 then Err(DimensionError(|mask.shape|))
    else
      match Located(o, o.findContours(BinaryOf(mask, background)), offset)
      case Err(e) => Err(e)
      case Ok(polygons) => Labelled(o, mask, polygons)
  }

  /** The labelling loop succeeds exactly when every polygon's label can be
      read, and then gives one slice per polygon, in order, holding that
      polygon, its label and neither time nor depth. */
  lemma {:induction false} LabelledOk(o: Oracle, mask: NdArray, polygons: seq<Geometry>)
    requires Wf(mask) && |mask.shape| == 2
    ensures Labelled(o, mask, polygons).Ok? <==> forall k :: 0 <= k < |polygons| ==> LabelOf(o, mask, polygons[k]).Ok?
    ensures Labelled(o, mask, polygons).Ok? ==>
      var slices := Labelled(o, mask, polygons).value;
      && |slices| == |polygons|
      && forall k :: 0 <= k < |slices| ==>
           slices[k] == ObjectSlice(polygons[k], LabelOf(o, mask, polygons[k]).value, None, None)
  {
    if polygons != [] {
      LabelledOk(o, mask, polygons[1..]);
      assert forall k :: 1 <= k < |polygons| ==> polygons[1..][k - 1] == polygons[k];
    }
  }

  /** When the labelling loop fails, it fails with the error of the first
      polygon whose label cannot be read. */
  lemma {:induction false} LabelledFirstFailure(o: Oracle, mask: NdArray, polygons: seq<Geometry>) returns (k: nat)
    requires Wf(mask) && |mask.shape| == 2
    requires Labelled(o, mask, polygons).Err?
    ensures k < |polygons| && LabelOf(o, mask, polygons[k]).Err?
    ensures forall j :: 0 <= j < k ==> LabelOf(o, mask, polygons[j]).Ok?
    ensures Labelled(o, mask, polygons).error == LabelOf(o, mask, polygons[k]).error
  {
    if LabelOf(o, mask, polygons[0]).Err? {
      k := 0;
    } else {
      var rest := LabelledFirstFailure(o, mask, polygons[1..]);
      k := rest + 1;
      assert forall j :: 1 <= j < k ==> polygons[j] == polygons[1..][j - 1];
    }
  }

  /** Reading a label fails only for the reasons get_polygon_inner_point
      and the indexing give. */
  lemma LabelOfFails(o: Oracle, mask: NdArray, g: Geometry)
    requires Wf(mask) && |mask.shape| == 2
    ensures LabelOf(o, mask, g).Err? ==> LabelOf(o, mask, g).error in {NoExterior, NoInteriorPoint, OutOfBounds}
  {
    LabelRecovery.InnerPointSpec(o, g);
  }

  /** mask_to_objects_2d raises the dimension ValueError exactly when the
      mask is not 2-dimensional; otherwise it fails only with a failed
      repair, a MultiPolygon reaching get_polygon_inner_point, a polygon
      with no pixel found inside, or an inner pixel outside the mask. */
  lemma Objects2dFails(o: Oracle, mask: NdArray, background: int, offset: Option<Shift>)
    requires Wf(mask)
    ensures var r := Objects2d(o, mask, background, offset);
      r.Err? && r.error.DimensionError? <==> |mask.shape| != 2
    ensures |mask.shape| != 2 ==> Objects2d(o, mask, background, offset) == Err(DimensionError(|mask.shape|))
    ensures var r := Objects2d(o, mask, background, offset);
      |mask.shape| == 2 && r.Err? ==> r.error in {RepairFailed, NoExterior, NoInteriorPoint, OutOfBounds}
  {
    if |mask.shape| == 2 {
      var t := o.findContours(BinaryOf(mask, background));
      if |t.contours| > 0 {
        LocatedFromFails(o, t, offset, 0);
      }
      var located := Located(o, t, offset);
      if located.Ok? && Labelled(o, mask, located.value).Err? {
        var k := LabelledFirstFailure(o, mask, located.value);
        LabelOfFails(o, mask, located.value[k]);
      }
    }
  }

  /** On success there is one slice per polygon the walk kept, in the walk's
      order; each holds that polygon unchanged, no time, no depth, and the
      mask value at the polygon's inner pixel as its label. */
  lemma Objects2dSlices(o: Oracle, mask: NdArray, background: int, offset: Option<Shift>)
    requires Wf(mask)
    requires Objects2d(o, mask, background, offset).Ok?
    ensures |mask.shape| == 2
    ensures var located := Located(o, o.findContours(BinaryOf(mask, background)), offset);
      var slices := Objects2d(o, mask, background, offset).value;
      && located.Ok? && |slices| == |located.value|
      && forall k :: 0 <= k < |slices| ==>
           && slices[k].polygon == located.value[k]
           && slices[k].time.None? && slices[k].depth.None?
           && InnerPoint(o, slices[k].polygon).Ok?
           && Index2(mask, InnerPoint(o, slices[k].polygon).value.y, InnerPoint(o, slices[k].polygon).value.x)
              == Ok(slices[k].labelValue)
  {
    var located := Located(o, o.findContours(BinaryOf(mask, background)), offset);
    LabelledOk(o, mask, located.value);
  }

  /** The loop of mask_to_objects_2d over the traced polygons. */
  method LabelSlices(o: Oracle, mask: NdArray, polygons: seq<Geometry>) returns (r: Result<seq<ObjectSlice>>)
    requires Wf(mask) && |mask.shape| == 2
    ensures r == Labelled(o, mask, polygons)
  {
    var objects: seq<ObjectSlice> := [];
    assert polygons[0..] == polygons;
    PrependNothing(Labelled(o, mask, polygons));
    for i := 0 to |polygons|
      invariant Labelled(o, mask, polygons) == Prepend(objects, Labelled(o, mask, polygons[i..]))
    {
      var polygon := polygons[i];
      assert polygons[i..][0] == polygon && polygons[i..][1..] == polygons[i + 1..];
      var rest := Labelled(o, mask, polygons[i + 1..]);
      var inner := GetPolygonInnerPoint(o, polygon);
      if inner.Err? {
        assert Labelled(o, mask, polygons[i..]) == Err(inner.error);
        return Err(inner.error);
      }
      var x, y := inner.value.x, inner.value.y;
      var value := Index2(mask, y, x);
      assert value == LabelOf(o, mask, polygon);
      if value.Err? {
        assert Labelled(o, mask, polygons[i..]) == Err(value.error);
        return Err(value.error);
      }
      var slice := ObjectSlice(polygon, value.value, None, None);
      assert Labelled(o, mask, polygons[i..]) == Prepend([slice], rest);
      PrependTwice(objects, [slice], rest);
      objects := objects + [slice];
    }
    assert polygons[|polygons|..] == [];
    assert objects + [] == objects;
    return Ok(objects);
  }

  /** mask_to_objects_2d, as the source runs it. */
  method MaskToObjects2d(o: Oracle, mask: NdArray, background: int, offset: Option<Shift>)
    returns (r: Result<seq<ObjectSlice>>)
    requires Wf(mask)
    ensures r == Objects2d(o, mask, background, offset)
  {
    if |mask.shape| != 2 {
      return Err(DimensionError(|mask.shape|));
    }
    var maskCpy := Binarise(mask, background);
    var polygons :- Locate(o, o.findContours(maskCpy), offset);
    r := LabelSlices(o, mask, polygons);
  }
}
