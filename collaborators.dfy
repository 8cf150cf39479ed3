/** The foreign libraries the converter calls, as the values they compute:
    OpenCV's contour tracer (cv2.findContours with RETR_CCOMP), shapely's
    validity test and zero-distance buffer, skimage's point-in-polygon test
    and skimage's connected-component relabelling. Nothing is assumed about
    them beyond their types and, for the tracer, how it numbers contours. */
module Collaborators {
  import opened Outcomes
  import opened Raster
  import opened Shapes

  /** One row of OpenCV's hierarchy array: [next, previous, first child,
      parent], -1 meaning "none". */
  datatype Link = Link(next: int, previous: int, firstChild: int, parent: int)

  /** What cv2.findContours returns: the contours as integer point lists and
      one hierarchy row per contour. */
  datatype Trace = Trace(contours: seq<seq<Pixel>>, hierarchy: seq<Link>)

  datatype Oracle = Oracle(
    /** cv2.findContours(binary, RETR_CCOMP, CHAIN_APPROX_SIMPLE) */
    findContours: NdArray -> Traced,
    /** shapely `geometry.is_valid` */
    isValid: Geometry -> bool,
    /** shapely `geometry.buffer(0)`; None when it raises ValueError */
    buffer: Geometry -> Option<Geometry>,
    /** skimage points_in_poly for one point against a closed ring */
    inPoly: (Pixel, Ring) -> bool,
    /** skimage label(mask, connectivity=2, background): the component
        number given to the cell at a row-major position */
    componentLabel: (NdArray, int, nat) -> int
  )

  /** A link is "none" or points forward to a later contour. */
  predicate ForwardLink(link: int, i: nat, n: nat)
  {
    link == -1 || i < link < n
  }

  /** OpenCV lists the contours by flattening its contour tree depth first,
      so a contour's first child and next sibling come after it: the links
      point forward, which is what makes the walk over the hierarchy
      finish. */
  predicate ForwardLinks(h: seq<Link>)
  {
    forall i :: 0 <= i < |h| ==> ForwardLink(h[i].next, i, |h|) && ForwardLink(h[i].firstChild, i, |h|)
  }

  /** A tracer output the walk can consume: one hierarchy row per contour,
      links pointing forward. */
  predicate Traceable(t: Trace)
  {
    |t.contours| == |t.hierarchy| && ForwardLinks(t.hierarchy)
  }

  /** What OpenCV's tracer returns is always consumable. */
  type Traced = t: Trace | Traceable(t) witness Trace([], [])
}
