/** _locate: walk OpenCV's two-level contour hierarchy. Each top-level
    contour (the next-sibling chain from contour 0) becomes an exterior ring,
    the chain of its children becomes its holes; polygons are translated by
    the optional offset, and invalid ones are repaired or dropped. */
module Tracer {
  import opened Outcomes
  import opened Shapes
  import opened Collaborators
  import opened Repair

  /** An (x, y) offset, `col_off, row_off = offset`. */
  datatype Shift = Shift(dx: real, dy: real)

  /** The next-sibling chain starting at contour i. */
  function Siblings(h: seq<Link>, i: nat): (chain: seq<nat>)
    requires ForwardLinks(h) && i < |h|
    ensures chain != [] && chain[0] == i
    ensures forall k :: 0 <= k < |chain| ==> i <= chain[k] < |h|
    decreases |h| - i
  {
    if h[i].next == -1 then [i] else [i] + Siblings(h, h[i].next)
  }

  /** The chain visits contours by following `next` from i until it meets -1,
      in strictly increasing order (so no contour is visited twice). */
  lemma {:induction false} SiblingsFollowNext(h: seq<Link>, i: nat)
    requires ForwardLinks(h) && i < |h|
    ensures var c := Siblings(h, i);
      && (forall k :: 0 <= k < |c| - 1 ==> c[k + 1] == h[c[k]].next && c[k] < c[k + 1])
      && h[c[|c| - 1]].next == -1
    decreases |h| - i
  {
    if h[i].next != -1 {
      SiblingsFollowNext(h, h[i].next);
      var c := Siblings(h, i);
      assert c[1..] == Siblings(h, h[i].next);
    }
  }

  /** The rings of the listed contours. */
  function RingsAt(contours: seq<seq<Pixel>>, indices: seq<nat>): (rings: seq<Ring>)
    requires forall k :: 0 <= k < |indices| ==> indices[k] < |contours|
    ensures |rings| == |indices|
    ensures forall k :: 0 <= k < |indices| ==> rings[k] == ToRing(contours[indices[k]])
  {
    seq(|indices|, k requires 0 <= k < |indices| => ToRing(contours[indices[k]]))
  }

  /** The holes of top contour i: its first child and that child's siblings. */
  function Holes(t: Trace, i: nat): seq<Ring>
    requires Traceable(t) && i < |t.hierarchy|
  {
    var child := t.hierarchy[i].firstChild;
    if child == -1 then [] else RingsAt(t.contours, Siblings(t.hierarchy, child))
  }

  function Transformed(p: Polygon, offset: Option<Shift>): Polygon
  {
    match offset
    case None => p
    case Some(s) => TranslatePolygon(p, s.dx, s.dy)
  }

  /** The polygon built for top contour i, before validation. */
  function Candidate(t: Trace, i: nat, offset: Option<Shift>): Polygon
    requires Traceable(t) && i < |t.hierarchy|
  {
    Transformed(Polygon(ToRing(t.contours[i]), Holes(t, i)), offset)
  }

  /** What happens to a built polygon: kept if valid, else repaired and kept
      if the repair is valid, else dropped (with a warning). A repair that
      returns None raises when its validity is read. */
  function Admitted(o: Oracle, p: Polygon): Result<Option<Geometry>>
  {
    if o.isValid(Single(p)) then Ok(Some(Single(p)))
    else
      match Repaired(o, Single(p))
      case None => Err(RepairFailed)
      case Some(fixed) => if o.isValid(fixed) then Ok(Some(fixed)) else Ok(None)
  }

  /** The components found from top contour i onwards. */
  function LocatedFrom(o: Oracle, t: Trace, offset: Option<Shift>, i: nat): Result<seq<Geometry>>
    requires Traceable(t) && i < |t.hierarchy|
    decreases |t.hierarchy| - i
  {
    var here := if |t.contours[i]| > 3 then Admitted(o, Candidate(t, i, offset)) else Ok(None);
    match here
    case Err(e) => Err(e)
    case Ok(x) =>
      var next := t.hierarchy[i].next;
      Prepend(OptionToSeq(x), if next == -1 then Ok([]) else LocatedFrom(o, t, offset, next))
  }

  /** The outcome of _locate on one tracer output. */
  function Located(o: Oracle, t: Trace, offset: Option<Shift>): Result<seq<Geometry>>
    requires Traceable(t)
  {
    if |t.contours| == 0 then Ok([]) else LocatedFrom(o, t, offset, 0)
  }

  /** The top contours, in the order the walk visits them. */
  function Tops(t: Trace): seq<nat>
    requires Traceable(t)
  {
    if |t.contours| == 0 then [] else Siblings(t.hierarchy, 0)
  }

  /** The top contours with more than three points, in chain order. */
  function Kept(t: Trace, tops: seq<nat>): (kept: seq<nat>)
    requires forall k :: 0 <= k < |tops| ==> tops[k] < |t.contours|
    ensures forall k :: 0 <= k < |kept| ==> kept[k] in tops && |t.contours[kept[k]]| > 3
  {
    if tops == [] then []
    else (if |t.contours[tops[0]]| > 3 then [tops[0]] else []) + Kept(t, tops[1..])
  }

  /** No contours, no components. */
  lemma LocatedNoContours(o: Oracle, t: Trace, offset: Option<Shift>)
    requires Traceable(t) && |t.contours| == 0
    ensures Located(o, t, offset) == Ok([])
  {
  }

  /** At most one component per top contour that has more than three points. */
  lemma LocatedAtMostOnePerTop(o: Oracle, t: Trace, offset: Option<Shift>)
    requires Traceable(t)
    ensures Located(o, t, offset).Ok? ==> |Located(o, t, offset).value| <= |Kept(t, Tops(t))|
  {
    if |t.contours| > 0 {
      FromAtMostOne(o, t, offset, 0);
    }
  }

  lemma {:induction false} FromAtMostOne(o: Oracle, t: Trace, offset: Option<Shift>, i: nat)
    requires Traceable(t) && i < |t.hierarchy|
    ensures LocatedFrom(o, t, offset, i).Ok? ==>
      |LocatedFrom(o, t, offset, i).value| <= |Kept(t, Siblings(t.hierarchy, i))|
    decreases |t.hierarchy| - i
  {
    var chain := Siblings(t.hierarchy, i);
    var next := t.hierarchy[i].next;
    if next != -1 {
      FromAtMostOne(o, t, offset, next);
      assert chain[1..] == Siblings(t.hierarchy, next);
    }
  }

  /** The only error the hierarchy walk raises is the AttributeError of a
      failed repair. */
  lemma {:induction false} LocatedFromFails(o: Oracle, t: Trace, offset: Option<Shift>, i: nat)
    requires Traceable(t) && i < |t.hierarchy|
    ensures LocatedFrom(o, t, offset, i).Err? ==> LocatedFrom(o, t, offset, i).error == RepairFailed
    decreases |t.hierarchy| - i
  {
    var next := t.hierarchy[i].next;
    if next != -1 {
      LocatedFromFails(o, t, offset, next);
    }
  }

  /** The built polygons of the listed top contours, as geometries. */
  function Candidates(t: Trace, tops: seq<nat>, offset: Option<Shift>): (gs: seq<Geometry>)
    requires Traceable(t) && forall k :: 0 <= k < |tops| ==> tops[k] < |t.hierarchy|
    ensures |gs| == |tops|
    ensures forall k :: 0 <= k < |tops| ==> gs[k] == Single(Candidate(t, tops[k], offset))
  {
    if tops == [] then [] else [Single(Candidate(t, tops[0], offset))] + Candidates(t, tops[1..], offset)
  }

  /** When every polygon built is valid, _locate returns exactly the built
      polygons of the top contours with more than three points, in chain
      order: nothing else is dropped, added or reordered. */
  lemma LocatedWhenAllValid(o: Oracle, t: Trace, offset: Option<Shift>)
    requires Traceable(t)
    requires forall i :: 0 <= i < |t.hierarchy| ==> o.isValid(Single(Candidate(t, i, offset)))
    ensures Located(o, t, offset) == Ok(Candidates(t, Kept(t, Tops(t)), offset))
  {
    if |t.contours| > 0 {
      FromWhenAllValid(o, t, offset, 0);
    }
  }

  lemma {:induction false} FromWhenAllValid(o: Oracle, t: Trace, offset: Option<Shift>, i: nat)
    requires Traceable(t) && i < |t.hierarchy|
    requires forall j :: 0 <= j < |t.hierarchy| ==> o.isValid(Single(Candidate(t, j, offset)))
    ensures LocatedFrom(o, t, offset, i) == Ok(Candidates(t, Kept(t, Siblings(t.hierarchy, i)), offset))
    decreases |t.hierarchy| - i
  {
    var chain := Siblings(t.hierarchy, i);
    var next := t.hierarchy[i].next;
    var rest := if next == -1 then [] else Siblings(t.hierarchy, next);
    assert chain[0] == i && chain[1..] == rest;
    var restResult: Result<seq<Geometry>> := if next == -1 then Ok([]) else LocatedFrom(o, t, offset, next);
    if next != -1 {
      FromWhenAllValid(o, t, offset, next);
    }
    assert restResult == Ok(Candidates(t, Kept(t, rest), offset));
    FromStepValid(o, t, offset, i);
    KeptCandidates(t, chain, offset);
  }

  /** A valid polygon is kept as it was built, ahead of what the rest of the
      chain gives. */
  lemma FromStepValid(o: Oracle, t: Trace, offset: Option<Shift>, i: nat)
    requires Traceable(t) && i < |t.hierarchy| && o.isValid(Single(Candidate(t, i, offset)))
    ensures var next := t.hierarchy[i].next;
      LocatedFrom(o, t, offset, i) ==
        Prepend(if |t.contours[i]| > 3 then [Single(Candidate(t, i, offset))] else [],
                if next == -1 then Ok([]) else LocatedFrom(o, t, offset, next))
  {
    if |t.contours[i]| > 3 {
      assert Admitted(o, Candidate(t, i, offset)) == Ok(Some(Single(Candidate(t, i, offset))));
    }
  }

  lemma KeptCandidates(t: Trace, chain: seq<nat>, offset: Option<Shift>)
    requires Traceable(t) && chain != [] && forall k :: 0 <= k < |chain| ==> chain[k] < |t.hierarchy|
    ensures Candidates(t, Kept(t, chain), offset) ==
      (if |t.contours[chain[0]]| > 3 then [Single(Candidate(t, chain[0], offset))] else [])
      + Candidates(t, Kept(t, chain[1..]), offset)
  {
    if |t.contours[chain[0]]| > 3 {
      var rest := Kept(t, chain[1..]);
      assert Kept(t, chain) == [chain[0]] + rest;
      assert ([chain[0]] + rest)[1..] == rest;
    } else {
      assert Kept(t, chain) == Kept(t, chain[1..]);
    }
  }

  /** What the validity check makes of one built polygon: a valid polygon
      is kept as it is; an invalid one is replaced by its repair when the
      repair is valid and dropped when it is not; reading the validity of a
      repair that came back None raises. Whatever is kept is valid. */
  lemma AdmittedCases(o: Oracle, p: Polygon)
    ensures o.isValid(Single(p)) ==> Admitted(o, p) == Ok(Some(Single(p)))
    ensures Admitted(o, p).Err? <==> !o.isValid(Single(p)) && Repaired(o, Single(p)).None?
    ensures Admitted(o, p).Err? ==> Admitted(o, p).error == RepairFailed
    ensures !o.isValid(Single(p)) && Repaired(o, Single(p)).Some? ==>
      var fixed := Repaired(o, Single(p)).value;
      Admitted(o, p) == (if o.isValid(fixed) then Ok(Some(fixed)) else Ok(None))
    ensures Admitted(o, p).Ok? && Admitted(o, p).value.Some? ==> o.isValid(Admitted(o, p).value.value)
  {
  }

  /** The listed top contours' built polygons, each put through the validity
      check in turn: the first raising one stops the walk, the others give
      what they admit. */
  function AdmittedTops(o: Oracle, t: Trace, tops: seq<nat>, offset: Option<Shift>): Result<seq<Geometry>>
    requires Traceable(t) && forall k :: 0 <= k < |tops| ==> tops[k] < |t.hierarchy|
  {
    if tops == [] then Ok([])
    else
      match Admitted(o, Candidate(t, tops[0], offset))
      case Err(e) => Err(e)
      case Ok(x) => Prepend(OptionToSeq(x), AdmittedTops(o, t, tops[1..], offset))
  }

  /** _locate is the validity check applied, in sibling-chain order, to the
      built polygon of each top contour with more than three points: every
      component comes from one such contour, in that order, and nothing
      else is added. */
  lemma LocatedIsAdmittedTops(o: Oracle, t: Trace, offset: Option<Shift>)
    requires Traceable(t)
    ensures Located(o, t, offset) == AdmittedTops(o, t, Kept(t, Tops(t)), offset)
  {
    if |t.contours| > 0 {
      FromAdmittedTops(o, t, offset, 0);
    }
  }

  lemma {:induction false} FromAdmittedTops(o: Oracle, t: Trace, offset: Option<Shift>, i: nat)
    requires Traceable(t) && i < |t.hierarchy|
    ensures LocatedFrom(o, t, offset, i) == AdmittedTops(o, t, Kept(t, Siblings(t.hierarchy, i)), offset)
    decreases |t.hierarchy| - i
  {
    var chain := Siblings(t.hierarchy, i);
    var next := t.hierarchy[i].next;
    var rest := if next == -1 then [] else Siblings(t.hierarchy, next);
    assert chain[0] == i && chain[1..] == rest;
    if next != -1 {
      FromAdmittedTops(o, t, offset, next);
    }
    LocatedFromStep(o, t, offset, i);
    AdmittedTopsStep(o, t, chain, offset);
  }

  /** One top contour's share of the walk, ahead of what the rest gives. */
  function TopStep(o: Oracle, t: Trace, i: nat, offset: Option<Shift>, rest: Result<seq<Geometry>>)
    : Result<seq<Geometry>>
    requires Traceable(t) && i < |t.hierarchy|
  {
    if |t.contours[i]| > 3 then
      match Admitted(o, Candidate(t, i, offset))
      case Err(e) => Err(e)
      case Ok(x) => Prepend(OptionToSeq(x), rest)
    else rest
  }

  lemma LocatedFromStep(o: Oracle, t: Trace, offset: Option<Shift>, i: nat)
    requires Traceable(t) && i < |t.hierarchy|
    ensures var next := t.hierarchy[i].next;
      LocatedFrom(o, t, offset, i) == TopStep(o, t, i, offset, if next == -1 then Ok([]) else LocatedFrom(o, t, offset, next))
  {
    var next := t.hierarchy[i].next;
    PrependNothing(if next == -1 then Ok([]) else LocatedFrom(o, t, offset, next));
  }

  lemma AdmittedTopsStep(o: Oracle, t: Trace, chain: seq<nat>, offset: Option<Shift>)
    requires Traceable(t) && chain != [] && forall k :: 0 <= k < |chain| ==> chain[k] < |t.hierarchy|
    ensures AdmittedTops(o, t, Kept(t, chain), offset) ==
      TopStep(o, t, chain[0], offset, AdmittedTops(o, t, Kept(t, chain[1..]), offset))
  {
    var kept := Kept(t, chain[1..]);
    if |t.contours[chain[0]]| > 3 {
      assert Kept(t, chain) == [chain[0]] + kept;
      assert ([chain[0]] + kept)[0] == chain[0] && ([chain[0]] + kept)[1..] == kept;
    } else {
      assert Kept(t, chain) == kept;
    }
  }

  /** Everything the checked walk keeps is valid. */
  lemma {:induction false} AdmittedTopsValid(o: Oracle, t: Trace, tops: seq<nat>, offset: Option<Shift>)
    requires Traceable(t) && forall k :: 0 <= k < |tops| ==> tops[k] < |t.hierarchy|
    ensures var r := AdmittedTops(o, t, tops, offset);
      r.Ok? ==> |r.value| <= |tops| && forall k :: 0 <= k < |r.value| ==> o.isValid(r.value[k])
  {
    if tops != [] {
      AdmittedCases(o, Candidate(t, tops[0], offset));
      AdmittedTopsValid(o, t, tops[1..], offset);
    }
  }

  /** Every component _locate returns is valid, with at most one per top
      contour that has more than three points. */
  lemma LocatedValid(o: Oracle, t: Trace, offset: Option<Shift>)
    requires Traceable(t)
    ensures var r := Located(o, t, offset);
      r.Ok? ==> |r.value| <= |Kept(t, Tops(t))| && forall k :: 0 <= k < |r.value| ==> o.isValid(r.value[k])
  {
    LocatedIsAdmittedTops(o, t, offset);
    AdmittedTopsValid(o, t, Kept(t, Tops(t)), offset);
  }

  /** The holes of a top contour are exactly the rings of its child chain:
      none when it has no child, otherwise one per contour on the chain, in
      chain order. */
  lemma HolesAreChildChain(t: Trace, i: nat)
    requires Traceable(t) && i < |t.hierarchy|
    ensures t.hierarchy[i].firstChild == -1 ==> Holes(t, i) == []
    ensures t.hierarchy[i].firstChild != -1 ==>
      var chain := Siblings(t.hierarchy, t.hierarchy[i].firstChild);
      && |Holes(t, i)| == |chain|
      && (forall k :: 0 <= k < |chain| ==> Holes(t, i)[k] == ToRing(t.contours[chain[k]]))
      && chain[0] == t.hierarchy[i].firstChild
  {
  }

  /** An offset moves the built polygon and nothing else: the candidate with
      offset (dx, dy) is the one without offset translated by (dx, dy), and a
      zero offset is the same as no offset. */
  lemma CandidateOffset(t: Trace, i: nat, dx: real, dy: real)
    requires Traceable(t) && i < |t.hierarchy|
    ensures Candidate(t, i, Some(Shift(dx, dy))) == TranslatePolygon(Candidate(t, i, None), dx, dy)
    ensures Candidate(t, i, Some(Shift(0.0, 0.0))) == Candidate(t, i, None)
  {
    TranslateZero(Candidate(t, i, None));
  }

  lemma RingsAtCons(contours: seq<seq<Pixel>>, i: nat, rest: seq<nat>)
    requires i < |contours| && forall k :: 0 <= k < |rest| ==> rest[k] < |contours|
    ensures RingsAt(contours, [i] + rest) == [ToRing(contours[i])] + RingsAt(contours, rest)
  {
  }

  /** The rings of a sibling chain: the ring of its first contour, then
      those of the chain that follows it. */
  lemma ChainRings(t: Trace, k: nat)
    requires Traceable(t) && k < |t.hierarchy|
    ensures var next := t.hierarchy[k].next;
      RingsAt(t.contours, Siblings(t.hierarchy, k)) ==
        [ToRing(t.contours[k])] + (if next == -1 then [] else RingsAt(t.contours, Siblings(t.hierarchy, next)))
  {
    var next := t.hierarchy[k].next;
    if next != -1 {
      RingsAtCons(t.contours, k, Siblings(t.hierarchy, next));
    }
  }

  /** The child chain of one top contour, as the inner while loop collects it. */
  method CollectHoles(t: Trace, i: nat) returns (interiors: seq<Ring>)
    requires Traceable(t) && i < |t.hierarchy|
    ensures interiors == Holes(t, i)
  {
    var contours, hierarchy := t.contours, t.hierarchy;
    interiors := [];
    if hierarchy[i].firstChild != -1 {
      var subIndex: nat := hierarchy[i].firstChild;
      ghost var holes := RingsAt(contours, Siblings(hierarchy, subIndex));
      assert interiors + holes == holes;
      var subsRemaining := true;
      while subsRemaining
        invariant subIndex < |hierarchy|
        invariant subsRemaining ==> interiors + RingsAt(contours, Siblings(hierarchy, subIndex)) == holes
        invariant !subsRemaining ==> interiors == holes
        decreases |hierarchy| - subIndex + (if subsRemaining then 1 else 0)
      {
        var ring := ToRing(contours[subIndex]);
        var next := hierarchy[subIndex].next;
        ChainRings(t, subIndex);
        ghost var rest := if next == -1 then [] else RingsAt(contours, Siblings(hierarchy, next));
        assert interiors + ([ring] + rest) == (interiors + [ring]) + rest;
        interiors := interiors + [ring];
        if next != -1 {
          subIndex := next;
        } else {
          assert interiors + [] == interiors;
          subsRemaining := false;
        }
      }
    }
  }

  /** The validity check of one built polygon, with fix_geometry and the
      warning path. */
  method Admit(o: Oracle, polygon: Polygon) returns (r: Result<Option<Geometry>>)
    ensures r == Admitted(o, polygon)
  {
    if o.isValid(Single(polygon)) {
      return Ok(Some(Single(polygon)));
    }
    var fixed := FixGeometry(o, Single(polygon));
    if fixed.None? {
      return Err(RepairFailed);
    }
    if o.isValid(fixed.value) {
      return Ok(fixed);
    }
    return Ok(None);
  }

  /** _locate, as the source runs it: the outer while loop over the top
      contours. */
  method Locate(o: Oracle, t: Trace, offset: Option<Shift>) returns (r: Result<seq<Geometry>>)
    requires Traceable(t)
    ensures r == Located(o, t, offset)
  {
    var contours, hierarchy := t.contours, t.hierarchy;
    var components: seq<Geometry> := [];
    if |contours| > 0 {
      var topIndex: nat := 0;
      var topsRemaining := true;
      PrependNothing(LocatedFrom(o, t, offset, 0));
      while topsRemaining
        invariant topIndex < |hierarchy|
        invariant topsRemaining ==> Located(o, t, offset) == Prepend(components, LocatedFrom(o, t, offset, topIndex))
        invariant !topsRemaining ==> Located(o, t, offset) == Ok(components)
        decreases |hierarchy| - topIndex + (if topsRemaining then 1 else 0)
      {
        var exterior := contours[topIndex];
        var interiors := CollectHoles(t, topIndex);
        var found: Option<Geometry> := None;
        if |exterior| > 3 {
          var polygon := Transformed(Polygon(ToRing(exterior), interiors), offset);
          assert polygon == Candidate(t, topIndex, offset);
          found :- Admit(o, polygon);
        }
        var next := hierarchy[topIndex].next;
        PrependTwice(components, OptionToSeq(found), if next == -1 then Ok([]) else LocatedFrom(o, t, offset, next));
        components := components + OptionToSeq(found);
        assert components + [] == components;
        if next != -1 {
          topIndex := next;
        } else {
          topsRemaining := false;
        }
      }
    }
    return Ok(components);
  }
}
