/** `XodrMap::validate`: the lane sections of every road, then junction
    membership, then the links; the first failure is thrown as a message. */
module MapValidation {
  import opened Wrappers
  import Roads
  import XodrMaps
  import LinkErrors
  import JunctionValidation
  import RoadLinkValidation

  type XodrMap = XodrMaps.XodrMap

  /** The message thrown when link validation appended any error. */
  const LINK_VALIDATION_FAILED: string := "Link validation failed. Run the link validator for exact error messages."

  /** What `Road::validate` yields for each road, in order: `None` when it returns,
      `Some(message)` when it throws. */
  function RoadErrors(m: XodrMap): (errs: seq<Option<string>>)
    ensures |errs| == |m.roads|
    ensures forall i :: 0 <= i < |m.roads| ==> errs[i] == Roads.Validate(m.roads[i].laneSections)
  {
    seq(|m.roads|, i requires 0 <= i < |m.roads| => Roads.Validate(m.roads[i].laneSections))
  }

  /** The position of the first thrown message from `from` on: the loop stops there. */
  function FirstError(errs: seq<Option<string>>, from: nat): (r: Option<nat>)
    requires from <= |errs|
    ensures r.None? <==> forall i :: from <= i < |errs| ==> errs[i].None?
    ensures r.Some? ==> from <= r.value < |errs| && errs[r.value].Some?
                        && forall k :: from <= k < r.value ==> errs[k].None?
    decreases |errs| - from
  {
    if from == |errs| then None
    else if errs[from].Some? then Some(from)
    else FirstError(errs, from + 1)
  }

  /** `XodrMap::validate`, with `None` for a normal return and `Some(message)` for the
      `runtime_error` thrown. */
  function Validate(m: XodrMap): (err: Option<string>)
    requires XodrMaps.Linked(m)
    ensures JunctionValidation.IndicesInRange(m)
    ensures err.None? <==> RoadsValid(m) && LaterChecks(m).None?
  {
    JunctionValidation.LinkedIndicesInRange(m);
    var errs := RoadErrors(m);
    match FirstError(errs, 0)
    case Some(i) => errs[i]
    case None => LaterChecks(m)
  }

  /** Every road's lane sections pass `Road::validate`. */
  predicate RoadsValid(m: XodrMap) {
    forall i :: 0 <= i < |m.roads| ==> Roads.Validate(m.roads[i].laneSections).None?
  }

  /** The checks after the lane sections: junction membership, then the links. */
  function LaterChecks(m: XodrMap): (err: Option<string>)
    requires XodrMaps.Linked(m) && JunctionValidation.IndicesInRange(m)
    ensures err.None? <==>
              && JunctionValidation.ValidateJunctionMembership(m).None?
              && RoadLinkValidation.ValidateLinks(m).errors == []
  {
    match JunctionValidation.ValidateJunctionMembership(m)
    case Some(e) => Some(e.Message(m))
    case None =>
      if RoadLinkValidation.ValidateLinks(m).errors != [] then Some(LINK_VALIDATION_FAILED) else None
  }

  /** The message is that of the first check to fail: the first failing road's,
      then membership's, then the fixed link-validation message. */
  lemma ValidateReportsFirstFailure(m: XodrMap)
    requires XodrMaps.Linked(m)
    ensures FirstError(RoadErrors(m), 0).Some? ==>
              Validate(m) == Roads.Validate(m.roads[FirstError(RoadErrors(m), 0).value].laneSections)
    ensures JunctionValidation.IndicesInRange(m)
    ensures FirstError(RoadErrors(m), 0).None? && JunctionValidation.ValidateJunctionMembership(m).Some? ==>
              Validate(m) == Some(JunctionValidation.ValidateJunctionMembership(m).value.Message(m))
    ensures FirstError(RoadErrors(m), 0).None? && JunctionValidation.ValidateJunctionMembership(m).None? ==>
              (Validate(m).Some? <==> !RoadLinkValidation.ValidateLinks(m).ok)
              && (Validate(m).Some? ==> Validate(m).value == LINK_VALIDATION_FAILED)
  {
    JunctionValidation.LinkedIndicesInRange(m);
  }

  /** A map that passes validation has symmetric links throughout, and every road
      belongs to a junction exactly when that junction lists it as a connecting road. */
  lemma ValidMapIsConsistent(m: XodrMap, r: nat, j: nat)
    requires XodrMaps.Linked(m) && Validate(m).None?
    requires r < |m.roads| && j < |m.junctions|
    ensures RoadLinkValidation.RoadLinksValid(m, r)
    ensures JunctionValidation.IndicesInRange(m)
    ensures m.roads[r].junctionRef.index == j <==> JunctionValidation.ContainsRoad(m.junctions[j], r)
  {
    JunctionValidation.MembershipIsConnection(m, r, j);
  }
}
