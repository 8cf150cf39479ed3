/** get_polygon_inner_point and neighbour_pixels: find a pixel inside a
    traced polygon by scanning the 3x3 neighbourhoods of its exterior
    vertices, first vertex first. */
module LabelRecovery {
  import opened Outcomes
  import opened Shapes
  import opened Collaborators

  /** neighbour_pixels(x, y): the 3x3 block around (x, y), row by row. */
  function NeighbourPixels(x: int, y: int): (ns: seq<Pixel>)
    ensures |ns| == 9
    ensures forall k :: 0 <= k < 9 ==> ns[k] == Pixel(x + k % 3 - 1, y + k / 3 - 1)
  {
    [ Pixel(x - 1, y - 1), Pixel(x, y - 1), Pixel(x + 1, y - 1),
      Pixel(x - 1, y    ), Pixel(x, y    ), Pixel(x + 1, y    ),
      Pixel(x - 1, y + 1), Pixel(x, y + 1), Pixel(x + 1, y + 1) ]
  }

  /** The block holds exactly the pixels at most one step away on each axis,
      the centre included. */
  lemma NeighbourhoodIsBlock(x: int, y: int, p: Pixel)
    ensures p in NeighbourPixels(x, y) <==> -1 <= p.x - x <= 1 && -1 <= p.y - y <= 1
  {
    var ns := NeighbourPixels(x, y);
    if -1 <= p.x - x <= 1 && -1 <= p.y - y <= 1 {
      var k := (p.y - y + 1) * 3 + (p.x - x + 1);
      assert 0 <= k < 9 && ns[k] == p;
    }
  }

  /** Position of the first pixel of `ns` inside the ring, |ns| if none:
      `neighbours[in_poly][0]` when `count_nonzero(in_poly) > 0`. */
  function FirstInside(o: Oracle, ns: seq<Pixel>, ring: Ring): (k: nat)
    ensures k <= |ns|
    ensures k < |ns| ==> o.inPoly(ns[k], ring)
    ensures forall j :: 0 <= j < k ==> !o.inPoly(ns[j], ring)
  {
    if ns == [] then 0
    else if o.inPoly(ns[0], ring) then 0
    else 1 + FirstInside(o, ns[1..], ring)
  }

  /** The neighbourhood scanned for vertex v of the ring. */
  function Around(ring: Ring, v: nat): seq<Pixel>
    requires v < |ring|
  {
    NeighbourPixels(Trunc(ring[v].x), Trunc(ring[v].y))
  }

  /** Scanning from vertex v of the exterior ring onwards. */
  function InnerPointFrom(o: Oracle, ring: Ring, v: nat): Result<Pixel>
    decreases |ring| - v
  {
    if v >= |ring| then Err(NoInteriorPoint)
    else
      var ns := Around(ring, v);
      var k := FirstInside(o, ns, ring);
      if k < |ns| then Ok(ns[k]) else InnerPointFrom(o, ring, v + 1)
  }

  /** The outcome of get_polygon_inner_point on a geometry. */
  function InnerPoint(o: Oracle, g: Geometry): Result<Pixel>
  {
    match g
    case Multi(_) => Err(NoExterior)
    case Single(p) => InnerPointFrom(o, p.exterior, 0)
  }

  /** Vertex v has a neighbour inside the ring. */
  predicate HasInsideNeighbour(o: Oracle, ring: Ring, v: nat)
    requires v < |ring|
  {
    FirstInside(o, Around(ring, v), ring) < 9
  }

  /** The scan fails exactly when no vertex from v on has a neighbour inside
      the ring, and then with ValueError. */
  lemma {:induction false} InnerPointFromFails(o: Oracle, ring: Ring, v: nat)
    ensures InnerPointFrom(o, ring, v).Err? <==> forall u :: v <= u < |ring| ==> !HasInsideNeighbour(o, ring, u)
    ensures InnerPointFrom(o, ring, v).Err? ==> InnerPointFrom(o, ring, v).error == NoInteriorPoint
    decreases |ring| - v
  {
    if v < |ring| {
      InnerPointFromFails(o, ring, v + 1);
      if !HasInsideNeighbour(o, ring, v) {
        assert InnerPointFrom(o, ring, v) == InnerPointFrom(o, ring, v + 1);
      }
    }
  }

  /** When the scan succeeds it stops at the first vertex u that has a
      neighbour inside the ring and returns the first such neighbour in
      row-by-row order. */
  lemma {:induction false} InnerPointFromFirstMatch(o: Oracle, ring: Ring, v: nat) returns (u: nat)
    requires InnerPointFrom(o, ring, v).Ok?
    ensures v <= u < |ring| && HasInsideNeighbour(o, ring, u)
    ensures forall w :: v <= w < u ==> !HasInsideNeighbour(o, ring, w)
    ensures InnerPointFrom(o, ring, v).value == Around(ring, u)[FirstInside(o, Around(ring, u), ring)]
    decreases |ring| - v
  {
    if HasInsideNeighbour(o, ring, v) {
      u := v;
    } else {
      u := InnerPointFromFirstMatch(o, ring, v + 1);
    }
  }

  /** get_polygon_inner_point returns a pixel inside the exterior ring that is
      in the 3x3 block of an exterior vertex; it raises ValueError exactly
      when no vertex has such a neighbour, and AttributeError on a
      MultiPolygon. */
  lemma InnerPointSpec(o: Oracle, g: Geometry)
    ensures g.Multi? ==> InnerPoint(o, g) == Err(NoExterior)
    ensures g.Single? ==>
      (InnerPoint(o, g).Err? <==> forall u :: 0 <= u < |g.polygon.exterior| ==> !HasInsideNeighbour(o, g.polygon.exterior, u))
    ensures g.Single? && InnerPoint(o, g).Err? ==> InnerPoint(o, g).error == NoInteriorPoint
    ensures g.Single? && InnerPoint(o, g).Ok? ==>
      var ring := g.polygon.exterior;
      var p := InnerPoint(o, g).value;
      o.inPoly(p, ring) && exists u :: 0 <= u < |ring| && -1 <= p.x - Trunc(ring[u].x) <= 1 && -1 <= p.y - Trunc(ring[u].y) <= 1
  {
    if g.Single? {
      var ring := g.polygon.exterior;
      InnerPointFromFails(o, ring, 0);
      if InnerPoint(o, g).Ok? {
        var p := InnerPoint(o, g).value;
        var u := InnerPointFromFirstMatch(o, ring, 0);
        NeighbourhoodIsBlock(Trunc(ring[u].x), Trunc(ring[u].y), p);
      }
    }
  }

  /** The scan of one neighbourhood: points_in_poly over the nine pixels,
      then the first one inside. */
  method FirstInsideOf(o: Oracle, neighbours: seq<Pixel>, exterior: Ring) returns (k: nat)
    ensures k == FirstInside(o, neighbours, exterior)
  {
    var inPoly := seq(|neighbours|, j requires 0 <= j < |neighbours| => o.inPoly(neighbours[j], exterior));
    k := 0;
    while k < |neighbours| && !inPoly[k]
      invariant k <= |neighbours|
      invariant FirstInside(o, neighbours, exterior) == k + FirstInside(o, neighbours[k..], exterior)
    {
      assert neighbours[k..][1..] == neighbours[k + 1..];
      k := k + 1;
    }
    if k == |neighbours| {
      assert neighbours[k..] == [];
    }
  }

  /** get_polygon_inner_point, as the source runs it: a loop over the
      exterior coordinates that returns at the first vertex with an inside
      neighbour. */
  method GetPolygonInnerPoint(o: Oracle, polygon: Geometry) returns (r: Result<Pixel>)
    ensures r == InnerPoint(o, polygon)
  {
    if polygon.Multi? {
      return Err(NoExterior);
    }
    var exterior := polygon.polygon.exterior;
    for v := 0 to |exterior|
      invariant InnerPointFrom(o, exterior, v) == InnerPoint(o, polygon)
    {
      var neighbours := NeighbourPixels(Trunc(exterior[v].x), Trunc(exterior[v].y));
      var k := FirstInsideOf(o, neighbours, exterior);
      if k < |neighbours| {
        return Ok(neighbours[k]);
      }
    }
    return Err(NoInteriorPoint);
  }
}
