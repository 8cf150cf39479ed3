/** fix_geometry: repair an invalid geometry with a zero-distance buffer, and
    when the buffer raises, rebuild each part from its non-degenerate rings
    and buffer that instead. */
module Repair {
  import opened Outcomes
  import opened Shapes
  import opened Collaborators

  /** The holes kept by the fallback: the valid ones, in their order. */
  function ValidRings(rings: seq<Ring>): (kept: seq<Ring>)
    ensures |kept| <= |rings|
    ensures forall r :: r in kept ==> r in rings && LinearRingIsValid(r)
    ensures forall r :: r in rings && LinearRingIsValid(r) ==> r in kept
  {
    if rings == [] then []
    else (if LinearRingIsValid(rings[0]) then [rings[0]] else []) + ValidRings(rings[1..])
  }

  /** Filtering distributes over concatenation, so the kept holes stay in
      their original order. */
  lemma {:induction false} ValidRingsAppend(a: seq<Ring>, b: seq<Ring>)
    ensures ValidRings(a + b) == ValidRings(a) + ValidRings(b)
  {
    if a == [] {
      assert a + b == b;
    } else {
      assert (a + b)[1..] == a[1..] + b;
      ValidRingsAppend(a[1..], b);
    }
  }

  /** The zero-distance buffer of a part rebuilt from its exterior and its
      valid holes; None when it raises. */
  function Rebuilt(o: Oracle, p: Polygon): Option<Geometry>
  {
    o.buffer(Single(Polygon(p.exterior, ValidRings(p.interiors))))
  }

  /** What one part of the geometry contributes in the fallback: nothing when
      its exterior is degenerate or the buffer of the rebuilt polygon raises,
      otherwise the parts of that buffer. */
  function Contribution(o: Oracle, p: Polygon): seq<Polygon>
  {
    if !LinearRingIsValid(p.exterior) then []
    else
      match Rebuilt(o, p)
      case None => []
      case Some(g) => GeomAsList(g)
  }

  /** The fallback loop over the parts of the geometry. */
  function FixParts(o: Oracle, ps: seq<Polygon>): seq<Polygon>
  {
    if ps == [] then [] else Contribution(o, ps[0]) + FixParts(o, ps[1..])
  }

  /** The outcome of fix_geometry; None is the Python None. */
  function Repaired(o: Oracle, g: Geometry): Option<Geometry>
  {
    match o.buffer(g)
    case Some(b) => Some(b)
    case None =>
      var fixed := FixParts(o, GeomAsList(g));
      if |fixed| > 0 then Some(Multi(fixed)) else None
  }

  /** The repaired parts are the concatenation of what each part gives, in
      input order. */
  lemma {:induction false} FixPartsAppend(o: Oracle, a: seq<Polygon>, b: seq<Polygon>)
    ensures FixParts(o, a + b) == FixParts(o, a) + FixParts(o, b)
  {
    if a == [] {
      assert a + b == b;
    } else {
      assert (a + b)[1..] == a[1..] + b;
      FixPartsAppend(o, a[1..], b);
    }
  }

  /** Nothing survives the fallback exactly when no part contributes. */
  lemma {:induction false} FixPartsEmpty(o: Oracle, ps: seq<Polygon>)
    ensures FixParts(o, ps) == [] <==> forall i :: 0 <= i < |ps| ==> Contribution(o, ps[i]) == []
  {
    if ps != [] {
      FixPartsEmpty(o, ps[1..]);
      assert forall i :: 1 <= i < |ps| ==> ps[i] == ps[1..][i - 1];
    }
  }

  /** fix_geometry returns None exactly when the buffer raised and no part
      survived the fallback; when the buffer succeeds its result is returned
      unchanged; otherwise the survivors come back as one MultiPolygon. */
  lemma RepairedCases(o: Oracle, g: Geometry)
    ensures Repaired(o, g).None? <==>
      o.buffer(g).None? && forall i :: 0 <= i < |GeomAsList(g)| ==> Contribution(o, GeomAsList(g)[i]) == []
    ensures o.buffer(g).Some? ==> Repaired(o, g) == o.buffer(g)
    ensures o.buffer(g).None? && Repaired(o, g).Some? ==> Repaired(o, g) == Some(Multi(FixParts(o, GeomAsList(g))))
  {
    FixPartsEmpty(o, GeomAsList(g));
  }

  /** A polygon is in the fallback's output exactly when it is a part of the
      rebuilt buffer of some input part whose exterior is valid and whose
      rebuilt buffer did not raise. */
  lemma {:induction false} FixPartsOrigin(o: Oracle, ps: seq<Polygon>, q: Polygon)
    ensures q in FixParts(o, ps) <==>
      exists i :: 0 <= i < |ps| && LinearRingIsValid(ps[i].exterior) && Rebuilt(o, ps[i]).Some?
                  && q in GeomAsList(Rebuilt(o, ps[i]).value)
  {
    if ps != [] {
      FixPartsOrigin(o, ps[1..], q);
      assert forall i :: 1 <= i < |ps| ==> ps[i] == ps[1..][i - 1];
      if q in FixParts(o, ps[1..]) {
        var j :| 0 <= j < |ps[1..]| && LinearRingIsValid(ps[1..][j].exterior) && Rebuilt(o, ps[1..][j]).Some?
                 && q in GeomAsList(Rebuilt(o, ps[1..][j]).value);
        assert ps[j + 1] == ps[1..][j];
      }
    }
  }

  /** Filtering one more ring extends the filtered prefix by that ring, if
      it is valid. */
  lemma ValidRingsSnoc(rings: seq<Ring>, j: nat)
    requires j < |rings|
    ensures ValidRings(rings[..j + 1]) ==
      ValidRings(rings[..j]) + (if LinearRingIsValid(rings[j]) then [rings[j]] else [])
  {
    assert rings[..j + 1] == rings[..j] + [rings[j]];
    ValidRingsAppend(rings[..j], [rings[j]]);
    assert [rings[j]][1..] == [];
  }

  /** The inner loop of the fallback: collect the valid holes in order. */
  method KeepValidRings(rings: seq<Ring>) returns (interiors: seq<Ring>)
    ensures interiors == ValidRings(rings)
  {
    interiors := [];
    for j := 0 to |rings|
      invariant interiors == ValidRings(rings[..j])
    {
      var ring := rings[j];
      ValidRingsSnoc(rings, j);
      if LinearRingIsValid(ring) {
        interiors := interiors + [ring];
      } else {
        assert interiors + [] == interiors;
      }
    }
    assert rings[..|rings|] == rings;
  }

  /** The fallback over one more part extends the repaired prefix by that
      part's contribution. */
  lemma FixPartsSnoc(o: Oracle, ps: seq<Polygon>, i: nat)
    requires i < |ps|
    ensures FixParts(o, ps[..i + 1]) == FixParts(o, ps[..i]) + Contribution(o, ps[i])
  {
    assert ps[..i + 1] == ps[..i] + [ps[i]];
    FixPartsAppend(o, ps[..i], [ps[i]]);
    assert [ps[i]][1..] == [];
    assert Contribution(o, ps[i]) + [] == Contribution(o, ps[i]);
  }

  /** fix_geometry, as the source runs it: the buffer first, then the loop
      that rebuilds and buffers each part. */
  method FixGeometry(o: Oracle, geometry: Geometry) returns (r: Option<Geometry>)
    ensures r == Repaired(o, geometry)
  {
    var buffered := o.buffer(geometry);
    if buffered.Some? {
      return buffered;
    }
    var polygons := GeomAsList(geometry);
    var fixedPolygons: seq<Polygon> := [];
    for i := 0 to |polygons|
      invariant fixedPolygons == FixParts(o, polygons[..i])
    {
      var polygon := polygons[i];
      FixPartsSnoc(o, polygons, i);
      assert fixedPolygons + [] == fixedPolygons;
      if !LinearRingIsValid(polygon.exterior) {
        continue;
      }
      var interiors := KeepValidRings(polygon.interiors);
      var fixedPolygon := Polygon(polygon.exterior, interiors);
      var rebuffered := o.buffer(Single(fixedPolygon));
      if rebuffered.None? {
        continue;
      }
      fixedPolygons := fixedPolygons + GeomAsList(rebuffered.value);
    }
    assert polygons[..|polygons|] == polygons;
    if |fixedPolygons| > 0 {
      r := Some(Multi(fixedPolygons));
    } else {
      r := None;
    }
  }
}
