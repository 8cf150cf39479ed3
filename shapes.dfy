/** The geometric values of mask_to_objects.py: integer pixels (contour
    points and neighbours), real-valued shapely coordinates, rings, polygons
    and the Polygon/MultiPolygon geometries, and the ObjectSlice record. */
module Shapes {
  import opened Outcomes

  /** An integer (x, y) = (column, row) pair: a traced contour point or a pixel. */
  datatype Pixel = Pixel(x: int, y: int)

  /** A shapely coordinate. */
  datatype Point = Point(x: real, y: real)

  /** The coordinate sequence of a shapely LinearRing. */
  type Ring = seq<Point>

  datatype Polygon = Polygon(exterior: Ring, interiors: seq<Ring>)

  /** The two geometry kinds the converter handles. */
  datatype Geometry = Single(polygon: Polygon) | Multi(parts: seq<Polygon>)

  /** One polygon of one object, with the label it encloses and, in the
      volumetric modes, the depth or time index it was taken at. */
  datatype ObjectSlice = ObjectSlice(polygon: Geometry, labelValue: int, time: Option<int>, depth: Option<int>)

  /** Python's `int(x)` on a float: truncation toward zero. */
  function Trunc(r: real): (n: int)
    ensures r >= 0.0 ==> 0 <= n && n as real <= r < n as real + 1.0
    ensures r < 0.0 ==> n <= 0 && n as real - 1.0 < r <= n as real
  {
    if r >= 0.0 then r.Floor else -((-r).Floor)
  }

  lemma TruncOfInteger(n: int)
    ensures Trunc(n as real) == n
  {
  }

  /** shapely closes a ring by repeating its first coordinate when the last
      one differs. */
  function Closed(ring: Ring): (c: Ring)
    ensures |c| == |ring| || |c| == |ring| + 1
    ensures |ring| > 0 ==> c[0] == ring[0] && c[|c| - 1] == ring[0]
    ensures c[..|ring|] == ring
  {
    if |ring| > 0 && ring[0] != ring[|ring| - 1] then ring + [ring[0]] else ring
  }

  /** Closing leaves an empty ring empty and an already closed ring as it
      is; with Closed's own contract this fixes the closed ring entirely. */
  lemma ClosedKeepsClosed(ring: Ring)
    ensures ring == [] ==> Closed(ring) == []
    ensures |ring| > 0 && ring[0] == ring[|ring| - 1] ==> Closed(ring) == ring
    ensures |ring| > 0 && ring[0] != ring[|ring| - 1] ==> Closed(ring) == ring + [ring[0]]
  {
  }

  /** The ring shapely builds from a traced contour's integer points. */
  function ToRing(contour: seq<Pixel>): Ring
  {
    Closed(seq(|contour|, k requires 0 <= k < |contour| => Point(contour[k].x as real, contour[k].y as real)))
  }

  /** The affine map with matrix [1, 0, 0, 1, dx, dy]: a pure translation. */
  function TranslateRing(ring: Ring, dx: real, dy: real): (r: Ring)
    ensures |r| == |ring|
    ensures forall k :: 0 <= k < |r| ==> r[k].x - ring[k].x == dx && r[k].y - ring[k].y == dy
  {
    seq(|ring|, k requires 0 <= k < |ring| => Point(ring[k].x + dx, ring[k].y + dy))
  }

  function TranslatePolygon(p: Polygon, dx: real, dy: real): (q: Polygon)
    ensures |q.interiors| == |p.interiors|
  {
    Polygon(TranslateRing(p.exterior, dx, dy),
            seq(|p.interiors|, k requires 0 <= k < |p.interiors| => TranslateRing(p.interiors[k], dx, dy)))
  }

  /** A zero translation leaves a polygon as it is. */
  lemma TranslateZero(p: Polygon)
    ensures TranslatePolygon(p, 0.0, 0.0) == p
  {
    forall ring: Ring | true ensures TranslateRing(ring, 0.0, 0.0) == ring {
      assert forall k :: 0 <= k < |ring| ==> TranslateRing(ring, 0.0, 0.0)[k] == ring[k];
    }
    var q := TranslatePolygon(p, 0.0, 0.0);
    assert forall k :: 0 <= k < |p.interiors| ==> q.interiors[k] == p.interiors[k];
  }

  /** Two translations in a row are one translation by the summed offsets. */
  lemma TranslateTwice(p: Polygon, a: real, b: real, c: real, d: real)
    ensures TranslatePolygon(TranslatePolygon(p, a, b), c, d) == TranslatePolygon(p, a + c, b + d)
  {
    forall ring: Ring | true ensures TranslateRing(TranslateRing(ring, a, b), c, d) == TranslateRing(ring, a + c, b + d) {
      var l, r := TranslateRing(TranslateRing(ring, a, b), c, d), TranslateRing(ring, a + c, b + d);
      assert forall k :: 0 <= k < |ring| ==> l[k] == r[k];
    }
    var l, r := TranslatePolygon(TranslatePolygon(p, a, b), c, d), TranslatePolygon(p, a + c, b + d);
    assert forall k :: 0 <= k < |p.interiors| ==> l.interiors[k] == r.interiors[k];
  }

  /** The polygons a geometry is made of. */
  function GeomAsList(g: Geometry): (ps: seq<Polygon>)
    ensures g.Single? ==> ps == [g.polygon]
    ensures g.Multi? ==> ps == g.parts
  {
    match g
    case Single(p) => [p]
    case Multi(parts) => parts
  }

  /** The set of distinct coordinates of a ring. */
  function Coords(ring: Ring): set<Point>
  {
    set k | 0 <= k < |ring| :: ring[k]
  }

  /** linear_ring_is_valid: at least three distinct coordinates. */
  predicate LinearRingIsValid(ring: Ring)
  {
    |Coords(ring)| >= 3
  }

  predicate ThreeDistinct(ring: Ring)
  {
    exists i, j, k :: 0 <= i < |ring| && 0 <= j < |ring| && 0 <= k < |ring|
                      && ring[i] != ring[j] && ring[i] != ring[k] && ring[j] != ring[k]
  }

  /** A ring is valid exactly when three of its coordinates are pairwise
      distinct. */
  lemma RingValidIffThreeDistinct(ring: Ring)
    ensures LinearRingIsValid(ring) <==> ThreeDistinct(ring)
  {
    if ThreeDistinct(ring) {
      ThreeDistinctIsValid(ring);
    }
    if LinearRingIsValid(ring) {
      ValidHasThreeDistinct(ring);
    }
  }

  lemma ThreeDistinctIsValid(ring: Ring)
    requires ThreeDistinct(ring)
    ensures LinearRingIsValid(ring)
  {
    var i, j, k :| 0 <= i < |ring| && 0 <= j < |ring| && 0 <= k < |ring|
                   && ring[i] != ring[j] && ring[i] != ring[k] && ring[j] != ring[k];
    var a, b, c := ring[i], ring[j], ring[k];
    CardThree(a, b, c);
    InCoords(ring, i);
    InCoords(ring, j);
    InCoords(ring, k);
    SubsetCard({a, b, c}, Coords(ring));
  }

  lemma ValidHasThreeDistinct(ring: Ring)
    requires LinearRingIsValid(ring)
    ensures ThreeDistinct(ring)
  {
    var cs := Coords(ring);
    var a :| a in cs;
    var rest := cs - {a};
    assert |rest| == |cs| - 1;
    var b :| b in rest;
    var rest2 := rest - {b};
    assert |rest2| == |rest| - 1;
    var c :| c in rest2;
    assert a != b && a != c && b != c;
    var i := IndexOf(ring, a);
    var j := IndexOf(ring, b);
    var k := IndexOf(ring, c);
    assert ring[i] != ring[j] && ring[i] != ring[k] && ring[j] != ring[k];
  }

  lemma IndexOf(ring: Ring, p: Point) returns (i: nat)
    requires p in Coords(ring)
    ensures i < |ring| && ring[i] == p
  {
    i :| 0 <= i < |ring| && ring[i] == p;
  }

  lemma CardThree<T>(a: T, b: T, c: T)
    requires a != b && a != c && b != c
    ensures |{a, b, c}| == 3
  {
    assert {a, b, c} == {a, b} + {c};
    assert c !in {a, b};
  }

  lemma InCoords(ring: Ring, k: nat)
    requires k < |ring|
    ensures ring[k] in Coords(ring)
  {
  }

  lemma SubsetCard<T>(a: set<T>, b: set<T>)
    requires a <= b
    ensures |a| <= |b|
  {
    assert b == a + (b - a);
  }

  /** A ring with fewer than three coordinates is never valid. */
  lemma ShortRingInvalid(ring: Ring)
    requires |ring| < 3
    ensures !LinearRingIsValid(ring)
  {
    CoordsCard(ring);
  }

  lemma {:induction false} CoordsCard(ring: Ring)
    ensures |Coords(ring)| <= |ring|
  {
    if ring != [] {
      var last := |ring| - 1;
      CoordsCard(ring[..last]);
      assert Coords(ring) == Coords(ring[..last]) + {ring[last]};
    }
  }

  /** Closing a ring adds no new coordinate. */
  lemma ClosedCoords(ring: Ring)
    ensures Coords(Closed(ring)) == Coords(ring)
  {
    var c := Closed(ring);
    assert forall k :: 0 <= k < |c| ==> c[k] in Coords(ring) by {
      forall k | 0 <= k < |c| ensures c[k] in Coords(ring) {
        if k < |ring| { assert c[k] == c[..|ring|][k]; } else { assert c[k] == ring[0]; }
      }
    }
    assert forall k :: 0 <= k < |ring| ==> ring[k] == c[k] by {
      forall k | 0 <= k < |ring| ensures ring[k] == c[k] { assert c[..|ring|][k] == c[k]; }
    }
  }
}
