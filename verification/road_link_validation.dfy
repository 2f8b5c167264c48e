/** Road-link validation (`road_link_validation.cpp`): every road end that links
    somewhere must be linked back, directly or through a junction, and the lane
    links across the link are then checked by the lane-link validators. */
module RoadLinkValidation {
  import opened RoadLinks
  import opened MapKeys
  import opened LinkErrors
  import opened LaneLinkValidation
  import Junctions
  import Roads
  import XodrMaps

  type XodrMap = XodrMaps.XodrMap

  /** `roadLinkForRoadContactPoint`: the predecessor at the start, the successor at the end. */
  function LinkFor(m: XodrMap, key: RoadContactPointKey): (l: RoadLink)
    requires ValidRoadKey(m, key)
    ensures key.contactPoint == Start ==> l == m.roads[key.roadIdx].links.predecessor
    ensures key.contactPoint == End ==> l == m.roads[key.roadIdx].links.successor
  {
    Roads.RoadLinkOf(m.roads[key.roadIdx], LinkTypeForContactPoint(key.contactPoint))
  }

  /** The link at a road end, in a linked map, points inside the map. */
  lemma LinkForInRange(m: XodrMap, key: RoadContactPointKey)
    requires XodrMaps.Linked(m) && ValidRoadKey(m, key)
    ensures XodrMaps.LinkInRange(m, LinkFor(m, key))
  {
    var r := key.roadIdx;
    assert XodrMaps.LinkInRange(m, m.roads[r].links.predecessor) && XodrMaps.LinkInRange(m, m.roads[r].links.successor);
  }

  /** Every junction of a linked map names existing roads in all its connections. */
  lemma JunctionResolved(m: XodrMap, j: int)
    requires XodrMaps.Linked(m) && 0 <= j < |m.junctions|
    ensures Junctions.RoadsResolved(m.junctions[j])
    ensures forall k :: 0 <= k < |m.junctions[j].connections| ==>
              && 0 <= m.junctions[j].connections[k].connectingRoad.index < |m.roads|
              && m.junctions[j].connections[k].contactPoint != ContactPoint.NotSpecified
  {
  }

  /** The key a road link points at. */
  function TargetKey(l: RoadLink): (k: RoadContactPointKey)
    requires l.elementType == ElementType.Road
    ensures k.roadIdx == l.elementRef.index && k.contactPoint == l.contactPoint
  {
    RoadContactPointKey(l.elementRef.index, l.contactPoint)
  }

  /** `hasOutgoingConnection` as a predicate: some connection leaves `connectingRoadIdx`
      at the contact point opposite to `cp`. */
  predicate HasOutgoing(j: Junctions.Junction, connectingRoadIdx: int, cp: ContactPoint)
    requires cp != ContactPoint.NotSpecified
  {
    exists k :: 0 <= k < |j.connections|
      && j.connections[k].connectingRoad.index == connectingRoadIdx
      && j.connections[k].contactPoint == OppositeContactPoint(cp)
  }

  /** The back-link at `to` names `from` exactly. */
  predicate PointsBackTo(back: RoadLink, from: RoadContactPointKey) {
    back.elementRef.index == from.roadIdx && back.contactPoint == from.contactPoint
  }

  /** `validateRoadRoadLink`: road `from` links directly to road `to`; the link
      at `to` must come back, and then the lane links are checked. */
  function ValidateRoadRoadLink(m: XodrMap, from: RoadContactPointKey, to: RoadContactPointKey): (o: Outcome)
    requires XodrMaps.Linked(m) && ValidRoadKey(m, from) && ValidRoadKey(m, to)
    ensures o.Honest()
    ensures LinkFor(m, to).elementType == ElementType.NotSpecified ==> o == Fail(RoadBackLinkNotSpecified(from, to, -1))
    ensures LinkFor(m, to).elementType == ElementType.Road && !PointsBackTo(LinkFor(m, to), from) ==>
              o == Fail(RoadLinkMisMatch(from, to, TargetKey(LinkFor(m, to)), -1))
    ensures LinkFor(m, to).elementType == ElementType.Road && PointsBackTo(LinkFor(m, to), from) ==>
              (o.ok <==> PairSymmetric(PairFor(m, from, to)))
    ensures LinkFor(m, to).elementType == ElementType.Junction ==> RoadRoadJunctionCase(m, from, to, o)
    ensures o.ok ==> LinkFor(m, to).elementType != ElementType.NotSpecified
    ensures o.ok && LinkFor(m, to).elementType == ElementType.Road ==> PointsBackTo(LinkFor(m, to), from)
  {
    var back := LinkFor(m, to);
    LinkForInRange(m, to);
    match back.elementType
    case NotSpecified => Fail(RoadBackLinkNotSpecified(from, to, -1))
    case Road =>
      if !PointsBackTo(back, from) then Fail(RoadLinkMisMatch(from, to, TargetKey(back), -1))
      else ValidateRoadRoadLaneLinks(m, from, to)
    case Junction =>
      var o := ViaBackJunction(m, from, to, back.elementRef.index);
      o
  }

  /** What `validateRoadRoadLink` does when the back-link names a junction. */
  predicate RoadRoadJunctionCase(m: XodrMap, from: RoadContactPointKey, to: RoadContactPointKey, o: Outcome)
    requires XodrMaps.Linked(m) && ValidRoadKey(m, from) && ValidRoadKey(m, to)
    requires LinkFor(m, to).elementType == ElementType.Junction
  {
    LinkForInRange(m, to);
    var bj := LinkFor(m, to).elementRef.index;
    JunctionResolved(m, bj);
    var j := m.junctions[bj];
    match Junctions.FindConnection(j, to.roadIdx, from.roadIdx, from.contactPoint)
    case Some(k) => o.ok <==> forall i: nat :: i < |PairFor(m, from, to).from.lanes| ==>
                                 IncomingAccepted(PairFor(m, from, to), j.connections[k], i)
    case None =>
      if HasOutgoing(j, from.roadIdx, from.contactPoint) then
        o.ok <==> forall i: nat :: i < |PairFor(m, from, to).from.lanes| ==> PairFor(m, from, to).LinkAcceptable(i)
      else o == Fail(RoadBackLinkNotSpecifiedInJunction(from, to, -1, bj))
  }

  /** The junction branch of `validateRoadRoadLink`: `from` is a connecting road
      of junction `bj`, entered from `to` or leaving towards it. */
  function ViaBackJunction(m: XodrMap, from: RoadContactPointKey, to: RoadContactPointKey, bj: int): (o: Outcome)
    requires XodrMaps.Linked(m) && ValidRoadKey(m, from) && ValidRoadKey(m, to)
    requires LinkFor(m, to).elementType == ElementType.Junction && bj == LinkFor(m, to).elementRef.index
    requires 0 <= bj < |m.junctions|
    ensures o.Honest()
    ensures RoadRoadJunctionCase(m, from, to, o)
  {
    JunctionResolved(m, bj);
    var j := m.junctions[bj];
    var p := PairFor(m, from, to);
    match Junctions.FindConnection(j, to.roadIdx, from.roadIdx, from.contactPoint)
    case Some(k) => ConnectingIncoming(p, j.connections[k])
    case None =>
      if HasOutgoing(j, from.roadIdx, from.contactPoint) then ConnectingOutgoing(p)
      else Fail(RoadBackLinkNotSpecifiedInJunction(from, to, -1, bj))
  }

  /** A connection key naming an existing connection. */
  predicate ValidConnectionKey(m: XodrMap, ck: JunctionConnectionKey) {
    0 <= ck.junctionIdx < |m.junctions| && 0 <= ck.connectionIdx < |m.junctions[ck.junctionIdx].connections|
  }

  function ConnectionAt(m: XodrMap, ck: JunctionConnectionKey): (c: Junctions.Connection)
    requires ValidConnectionKey(m, ck)
    ensures c in m.junctions[ck.junctionIdx].connections
  {
    m.junctions[ck.junctionIdx].connections[ck.connectionIdx]
  }

  /** `validateIncomingConnectingLink`: road `from` enters junction `ck.junctionIdx`
      and continues on the connecting road `to`, whose link must come back. */
  function ValidateIncomingConnectingLink(m: XodrMap, from: RoadContactPointKey, to: RoadContactPointKey,
                                          ck: JunctionConnectionKey): (o: Outcome)
    requires XodrMaps.Linked(m) && ValidRoadKey(m, from) && ValidRoadKey(m, to) && ValidConnectionKey(m, ck)
    ensures o.Honest()
    ensures LinkFor(m, to).elementType == ElementType.NotSpecified ==>
              o == Fail(RoadBackLinkNotSpecified(from, to, ck.junctionIdx))
    ensures LinkFor(m, to).elementType == ElementType.Road && !PointsBackTo(LinkFor(m, to), from) ==>
              o == Fail(RoadLinkMisMatch(from, to, TargetKey(LinkFor(m, to)), ck.junctionIdx))
    ensures LinkFor(m, to).elementType == ElementType.Road && PointsBackTo(LinkFor(m, to), from) ==>
              (o.ok <==> forall k: nat :: k < |ConnectionAt(m, ck).laneLinks| ==>
                           IncomingConnectingStep(PairFor(m, from, to), ConnectionAt(m, ck).laneLinks[k]).ok)
    ensures LinkFor(m, to).elementType == ElementType.Junction ==> IncomingConnectingJunctionCase(m, from, to, ck, o)
    ensures o.ok ==> LinkFor(m, to).elementType != ElementType.NotSpecified
  {
    var back := LinkFor(m, to);
    LinkForInRange(m, to);
    var conn := ConnectionAt(m, ck);
    match back.elementType
    case NotSpecified => Fail(RoadBackLinkNotSpecified(from, to, ck.junctionIdx))
    case Road =>
      if !PointsBackTo(back, from) then Fail(RoadLinkMisMatch(from, to, TargetKey(back), ck.junctionIdx))
      else IncomingConnecting(PairFor(m, from, to), conn)
    case Junction => ConnectingViaBackJunction(m, from, to, ck, back.elementRef.index)
  }

  /** What `validateIncomingConnectingLink` does when the back-link names a junction:
      a reverse incoming connection contradicts the forward one. */
  predicate IncomingConnectingJunctionCase(m: XodrMap, from: RoadContactPointKey, to: RoadContactPointKey,
                                           ck: JunctionConnectionKey, o: Outcome)
    requires XodrMaps.Linked(m) && ValidRoadKey(m, from) && ValidRoadKey(m, to) && ValidConnectionKey(m, ck)
    requires LinkFor(m, to).elementType == ElementType.Junction
  {
    LinkForInRange(m, to);
    var bj := LinkFor(m, to).elementRef.index;
    JunctionResolved(m, bj);
    var j := m.junctions[bj];
    if Junctions.FindConnection(j, to.roadIdx, from.roadIdx, from.contactPoint).Some? then
      o == Fail(InconsistentJunctionPathDirections(from, to, ck.junctionIdx, bj))
    else if HasOutgoing(j, from.roadIdx, from.contactPoint) then
      o.ok <==> forall k: nat :: k < |ConnectionAt(m, ck).laneLinks| ==>
                  LaneLinkWellPlaced(PairFor(m, from, to), ConnectionAt(m, ck).laneLinks[k])
    else o == Fail(RoadBackLinkNotSpecifiedInJunction(from, to, ck.junctionIdx, bj))
  }

  /** The junction branch of `validateIncomingConnectingLink`. */
  function ConnectingViaBackJunction(m: XodrMap, from: RoadContactPointKey, to: RoadContactPointKey,
                                     ck: JunctionConnectionKey, bj: int): (o: Outcome)
    requires XodrMaps.Linked(m) && ValidRoadKey(m, from) && ValidRoadKey(m, to) && ValidConnectionKey(m, ck)
    requires LinkFor(m, to).elementType == ElementType.Junction && bj == LinkFor(m, to).elementRef.index
    requires 0 <= bj < |m.junctions|
    ensures o.Honest()
    ensures IncomingConnectingJunctionCase(m, from, to, ck, o)
  {
    JunctionResolved(m, bj);
    var j := m.junctions[bj];
    if Junctions.FindConnection(j, to.roadIdx, from.roadIdx, from.contactPoint).Some? then
      Fail(InconsistentJunctionPathDirections(from, to, ck.junctionIdx, bj))
    else if HasOutgoing(j, from.roadIdx, from.contactPoint) then
      ConnectingConnecting(PairFor(m, from, to), ConnectionAt(m, ck))
    else Fail(RoadBackLinkNotSpecifiedInJunction(from, to, ck.junctionIdx, bj))
  }

  // ---- one road end ----

  /** The connection of a junction validated for road `roadIdx`: only those
      whose incoming road it is. */
  function ConnectionStep(m: XodrMap, key: RoadContactPointKey, ji: int, i: nat): (o: Outcome)
    requires XodrMaps.Linked(m) && ValidRoadKey(m, key) && 0 <= ji < |m.junctions|
    requires i < |m.junctions[ji].connections|
    ensures o.Honest()
    ensures !Enters(m, key, ji, i) ==> o == Pass()
  {
    JunctionResolved(m, ji);
    var conn := m.junctions[ji].connections[i];
    if conn.incomingRoad.index != key.roadIdx then Pass()
    else
      ValidateIncomingConnectingLink(m, key, RoadContactPointKey(conn.connectingRoad.index, conn.contactPoint),
                                     JunctionConnectionKey(ji, i))
  }

  /** The road `key.roadIdx` enters junction `ji` on connection `i`. */
  predicate Enters(m: XodrMap, key: RoadContactPointKey, ji: int, i: nat)
    requires 0 <= ji < |m.junctions| && i < |m.junctions[ji].connections|
  {
    m.junctions[ji].connections[i].incomingRoad.index == key.roadIdx
  }

  /** The connections of junction `ji`, in order. */
  function ValidateJunctionLink(m: XodrMap, key: RoadContactPointKey, ji: int): (o: Outcome)
    requires XodrMaps.Linked(m) && ValidRoadKey(m, key) && 0 <= ji < |m.junctions|
    ensures o.Honest()
    ensures o.ok <==> forall i: nat :: i < |m.junctions[ji].connections| && Enters(m, key, ji, i) ==>
                        ConnectionStep(m, key, ji, i).ok
    ensures (forall i: nat :: i < |m.junctions[ji].connections| ==> !Enters(m, key, ji, i)) ==> o == Pass()
  {
    var outs := ConnectionOutcomes(m, key, ji);
    var o := All(outs);
    assert (forall i: nat :: i < |outs| ==> !Enters(m, key, ji, i)) ==> o.errors == [];
    o
  }

  /** The outcome of each connection of junction `ji`, in order. */
  function ConnectionOutcomes(m: XodrMap, key: RoadContactPointKey, ji: int): (outs: seq<Outcome>)
    requires XodrMaps.Linked(m) && ValidRoadKey(m, key) && 0 <= ji < |m.junctions|
    ensures |outs| == |m.junctions[ji].connections|
    ensures forall i: nat :: i < |outs| ==> outs[i] == ConnectionStep(m, key, ji, i) && outs[i].Honest()
  {
    seq(|m.junctions[ji].connections|, i requires 0 <= i < |m.junctions[ji].connections| => ConnectionStep(m, key, ji, i))
  }

  /** `validateLinksIteration`: the link at one road end. */
  function ValidateLinksIteration(m: XodrMap, key: RoadContactPointKey): (o: Outcome)
    requires XodrMaps.Linked(m) && ValidRoadKey(m, key)
    ensures o.Honest()
    ensures LinkFor(m, key).elementType == ElementType.NotSpecified ==> o == Pass()
    ensures LinkFor(m, key).elementType == ElementType.Road ==> LinksToRoadCase(m, key, o)
    ensures LinkFor(m, key).elementType == ElementType.Junction ==>
              o == ValidateJunctionLink(m, key, LinkFor(m, key).elementRef.index)
  {
    var link := LinkFor(m, key);
    LinkForInRange(m, key);
    match link.elementType
    case NotSpecified => Pass()
    case Road =>
      var toKey := TargetKey(link);
      if m.roads[toKey.roadIdx].junctionRef.HasValue() then Fail(DirectLinkToJunctionRoad(key, toKey))
      else ValidateRoadRoadLink(m, key, toKey)
    case Junction => ValidateJunctionLink(m, key, link.elementRef.index)
  }

  /** A direct link onto a road inside a junction is one error; any other road
      link is checked as a road-road link. */
  predicate LinksToRoadCase(m: XodrMap, key: RoadContactPointKey, o: Outcome)
    requires XodrMaps.Linked(m) && ValidRoadKey(m, key) && LinkFor(m, key).elementType == ElementType.Road
  {
    LinkForInRange(m, key);
    var toKey := TargetKey(LinkFor(m, key));
    if m.roads[toKey.roadIdx].junctionRef.HasValue() then o == Fail(DirectLinkToJunctionRoad(key, toKey))
    else o == ValidateRoadRoadLink(m, key, toKey)
  }

  // ---- the whole map ----

  /** All three checks of road `i`, run whatever the earlier ones returned. */
  function RoadStep(m: XodrMap, i: nat): (o: Outcome)
    requires XodrMaps.Linked(m) && i < |m.roads|
    ensures o.Honest()
  {
    Also(Also(ValidateRoadInternalLaneLinks(m, i), ValidateLinksIteration(m, RoadContactPointKey(i, Start))),
         ValidateLinksIteration(m, RoadContactPointKey(i, End)))
  }

  /** The three checks of a road are all run, and their errors appended in order. */
  lemma RoadStepIsConjunction(m: XodrMap, i: nat)
    requires XodrMaps.Linked(m) && i < |m.roads|
    ensures RoadStep(m, i).ok <==> RoadLinksValid(m, i)
    ensures RoadStep(m, i).errors == ValidateRoadInternalLaneLinks(m, i).errors
                                     + ValidateLinksIteration(m, RoadContactPointKey(i, Start)).errors
                                     + ValidateLinksIteration(m, RoadContactPointKey(i, End)).errors
  {
  }

  /** Road `i`'s sections link up inside the road, and both its ends pass. */
  predicate RoadLinksValid(m: XodrMap, i: nat)
    requires XodrMaps.Linked(m) && i < |m.roads|
  {
    && ValidateRoadInternalLaneLinks(m, i).ok
    && ValidateLinksIteration(m, RoadContactPointKey(i, Start)).ok
    && ValidateLinksIteration(m, RoadContactPointKey(i, End)).ok
  }

  /** `validateLinks`: every road, every check; the result is their conjunction. */
  function ValidateLinks(m: XodrMap): (o: Outcome)
    requires XodrMaps.Linked(m)
    ensures o.Honest()
    ensures o.ok <==> forall i: nat :: i < |m.roads| ==> RoadLinksValid(m, i)
  {
    var outs := RoadOutcomes(m);
    assert forall i: nat :: i < |m.roads| ==> (outs[i].ok <==> RoadLinksValid(m, i)) by {
      forall i: nat | i < |m.roads|
        ensures outs[i].ok <==> RoadLinksValid(m, i)
      {
        RoadStepIsConjunction(m, i);
      }
    }
    All(outs)
  }

  /** The outcome of each road's three checks, in road order. */
  function RoadOutcomes(m: XodrMap): (outs: seq<Outcome>)
    requires XodrMaps.Linked(m)
    ensures |outs| == |m.roads|
    ensures forall i :: 0 <= i < |m.roads| ==> outs[i] == RoadStep(m, i) && outs[i].Honest()
  {
    seq(|m.roads|, i requires 0 <= i < |m.roads| => RoadStep(m, i))
  }

  /** A failing check of one road does not hide the errors of any other: each
      road's errors all reach the result. */
  lemma ValidateLinksKeepsRoadErrors(m: XodrMap, i: nat)
    requires XodrMaps.Linked(m) && i < |m.roads|
    ensures multiset(RoadStep(m, i).errors) <= multiset(ValidateLinks(m).errors)
  {
    AllKeepsErrors(RoadOutcomes(m), i);
  }
}
