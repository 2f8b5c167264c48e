/** Lane-link validation (`lane_link_validation.cpp`): every lane link across a
    road link, a junction connection, or the boundary between two lane sections
    of one road must point at an existing lane of the right driving direction,
    and the target lane must link back.

    `LaneID::sameSide` is used here in its sign form, which
    `LaneIds.SameSideIffSameSign` proves equal to the bitwise definition. */
module LaneLinkValidation {
  import opened RoadLinks
  import opened MapKeys
  import opened LinkErrors
  import LaneIds
  import LaneSections
  import Junctions
  import Roads
  import XodrMaps
  import LaneTypes

  type LaneSection = LaneSections.LaneSection

  predicate SameSide(a: int, b: int) {
    (a > 0) == (b > 0)
  }

  /** Roads meeting start to start or end to end run in opposing directions. */
  predicate OpposingDirections(a: LaneSectionContactPointKey, b: LaneSectionContactPointKey) {
    a.contactPoint == b.contactPoint
  }

  /** `validateLaneLinkInRange`: the target must not be the centre lane, must lie
      on the side the directions demand, and must lie in `[min, max]` (both ends
      included, although the doc comment calls the maximum exclusive). */
  function LinkInRange(a: LaneSectionContactPointKey, b: LaneSectionContactPointKey, fromId: int, toId: int,
                       opposing: bool, min: int, max: int): (o: Outcome)
    requires fromId != 0
    ensures o.Honest() && |o.errors| <= 1
    ensures o.ok <==> toId != 0 && SameSide(fromId, toId) != opposing && min <= toId <= max
    ensures toId == 0 ==> o.errors == [LaneLinkToCenterLane(a, b, fromId)]
    ensures toId != 0 && SameSide(fromId, toId) == opposing ==>
              o.errors == [LaneLinkOpposingDirections(a, b, fromId, toId)]
    ensures toId != 0 && SameSide(fromId, toId) != opposing && !(min <= toId <= max) ==>
              o.errors == [LaneLinkTargetOutOfRange(a, b, fromId, toId)]
  {
    if toId == 0 then Fail(LaneLinkToCenterLane(a, b, fromId))
    else if SameSide(fromId, toId) == opposing then Fail(LaneLinkOpposingDirections(a, b, fromId, toId))
    else if toId < min || toId > max then Fail(LaneLinkTargetOutOfRange(a, b, fromId, toId))
    else Pass()
  }

  /** A pair of lane sections linked at the given contact points. */
  datatype SectionPair = SectionPair(
    from: LaneSection, to: LaneSection,
    fromKey: LaneSectionContactPointKey, toKey: LaneSectionContactPointKey)
  {
    predicate Valid() {
      && from.LeftCountInRange() && to.LeftCountInRange()
      && fromKey.contactPoint != ContactPoint.NotSpecified && toKey.contactPoint != ContactPoint.NotSpecified
    }

    function LinkType(): RoadLinkType
      requires Valid()
    {
      LinkTypeForContactPoint(fromKey.contactPoint)
    }

    function BackLinkType(): RoadLinkType
      requires Valid()
    {
      LinkTypeForContactPoint(toKey.contactPoint)
    }

    /** `[-numRightLanes, numLeftLanes]` of the target section. */
    predicate InToRange(id: int) {
      -to.NumRightLanes() <= id <= to.numLeftLanes
    }

    predicate InFromRange(id: int) {
      -from.NumRightLanes() <= id <= from.numLeftLanes
    }

    function FromId(i: nat): int
      requires Valid() && i < |from.lanes|
    {
      LaneSections.LaneIndexToId(from, i)
    }

    /** The range test of `validateLaneLinkInRange` for lane `i`'s link. */
    function RangeCheck(i: nat): (o: Outcome)
      requires Valid() && i < |from.lanes| && from.lanes[i].HasLink(LinkType())
      ensures o.ok ==> to.LeftCountInRange() && from.lanes[i].Link(LinkType()) != 0
                       && InToRange(from.lanes[i].Link(LinkType()))
    {
      LinkInRange(fromKey, toKey, FromId(i), from.lanes[i].Link(LinkType()), OpposingDirections(fromKey, toKey),
                  -to.NumRightLanes(), to.numLeftLanes)
    }

    /** Lane `i`'s link (if any) is acceptable: it targets an existing lane of
        the right direction, and (when `backLinked` holds) that lane links back. */
    predicate LinkAcceptable(i: nat)
      requires Valid() && i < |from.lanes|
    {
      var t := LinkType();
      from.lanes[i].HasLink(t) ==>
        var toId := from.lanes[i].Link(t);
        toId != 0 && SameSide(FromId(i), toId) != OpposingDirections(fromKey, toKey) && InToRange(toId)
    }

    /** The target lane of an acceptable link links back to lane `i` in the target section. */
    predicate LinkedBack(i: nat)
      requires Valid() && i < |from.lanes| && LinkAcceptable(i) && from.lanes[i].HasLink(LinkType())
    {
      var b := LaneSections.LaneById(to, from.lanes[i].Link(LinkType()));
      b.HasLink(BackLinkType()) && b.Link(BackLinkType()) == FromId(i)
    }

    /** Lane `i` passes `validateLaneLinks`. */
    predicate LaneSymmetric(i: nat)
      requires Valid() && i < |from.lanes|
    {
      LinkAcceptable(i) && (from.lanes[i].HasLink(LinkType()) ==> LinkedBack(i))
    }
  }

  /** The loop body of `validateLaneLinks` for lane `i`. */
  function LaneLinkStep(p: SectionPair, i: nat): (o: Outcome)
    requires p.Valid() && i < |p.from.lanes|
    ensures o.Honest() && |o.errors| <= 1
    ensures o.ok <==> p.LaneSymmetric(i)
    ensures !p.from.lanes[i].HasLink(p.LinkType()) ==> o == Pass()
    ensures forall e :: e in o.errors ==> e.IsLaneError()
  {
    var t := p.LinkType();
    var lane := p.from.lanes[i];
    if !lane.HasLink(t) then Pass()
    else
      var fromId := p.FromId(i);
      var toId := lane.Link(t);
      var r := p.RangeCheck(i);
      if !r.ok then r
      else
        var b := LaneSections.LaneById(p.to, toId);
        var bt := p.BackLinkType();
        if b.HasLink(bt) then
          var backId := b.Link(bt);
          if backId != fromId then Fail(LaneLinkMisMatch(p.fromKey, p.toKey, fromId, toId, backId)) else Pass()
        else Fail(LaneBackLinkNotSpecified(p.fromKey, p.toKey, fromId, toId))
  }

  /** Every lane of the source section passes `validateLaneLinks`. */
  predicate PairSymmetric(p: SectionPair)
    requires p.Valid()
  {
    forall i: nat :: i < |p.from.lanes| ==> p.LaneSymmetric(i)
  }

  /** `validateLaneLinks`: every lane of the source section in turn. */
  function ValidateLaneLinks(p: SectionPair): (o: Outcome)
    requires p.Valid()
    ensures o.Honest()
    ensures o.ok <==> PairSymmetric(p)
    ensures (forall i: nat :: i < |p.from.lanes| ==> !p.from.lanes[i].HasLink(p.LinkType())) ==> o == Pass()
    ensures forall e :: e in o.errors ==> e.IsLaneError()
  {
    var step := (i: nat) requires i < |p.from.lanes| => LaneLinkStep(p, i);
    var o := Fold(|p.from.lanes|, step);
    assert forall i: nat :: i < |p.from.lanes| ==> step(i) == LaneLinkStep(p, i);
    assert forall i: nat :: i < |p.from.lanes| ==> (step(i).ok <==> p.LaneSymmetric(i));
    assert (forall i: nat :: i < |p.from.lanes| ==> !p.from.lanes[i].HasLink(p.LinkType())) ==>
             forall i: nat :: i < |p.from.lanes| ==> step(i) == Pass();
    o
  }

  // ---- sections of the map ----

  /** A road end, well inside the map. */
  predicate ValidRoadKey(m: XodrMaps.XodrMap, k: RoadContactPointKey) {
    0 <= k.roadIdx < |m.roads| && k.contactPoint != ContactPoint.NotSpecified
  }

  /** `fromRoadToLaneSectionContactPointKey`: the first section at the start, the last at the end. */
  function SectionKeyFor(m: XodrMaps.XodrMap, k: RoadContactPointKey): (sk: LaneSectionContactPointKey)
    requires XodrMaps.Linked(m) && ValidRoadKey(m, k)
    ensures sk.roadIdx == k.roadIdx && sk.contactPoint == k.contactPoint
    ensures 0 <= sk.laneSectionIdx < |m.roads[k.roadIdx].laneSections|
    ensures k.contactPoint == Start ==> sk.laneSectionIdx == 0
    ensures k.contactPoint == End ==> sk.laneSectionIdx == |m.roads[k.roadIdx].laneSections| - 1
  {
    var road := m.roads[k.roadIdx];
    LaneSectionContactPointKey(k.roadIdx, Roads.LaneSectionIndexForContactPoint(road, k.contactPoint), k.contactPoint)
  }

  /** The sections at two road ends, as the road-level lane validators look them up. */
  function PairFor(m: XodrMaps.XodrMap, a: RoadContactPointKey, b: RoadContactPointKey): (p: SectionPair)
    requires XodrMaps.Linked(m) && ValidRoadKey(m, a) && ValidRoadKey(m, b)
    ensures p.Valid()
    ensures p.fromKey == SectionKeyFor(m, a) && p.toKey == SectionKeyFor(m, b)
    ensures p.from == m.roads[a.roadIdx].laneSections[p.fromKey.laneSectionIdx]
    ensures p.to == m.roads[b.roadIdx].laneSections[p.toKey.laneSectionIdx]
  {
    var fk := SectionKeyFor(m, a);
    var tk := SectionKeyFor(m, b);
    SectionPair(XodrMaps.LaneSectionByKey(m, fk.SectionKey()), XodrMaps.LaneSectionByKey(m, tk.SectionKey()), fk, tk)
  }

  /** `validateRoadRoadLaneLinks`: the lane links between the end sections of two
      directly linked roads, checked exactly as `validateLaneLinks` checks them. */
  function ValidateRoadRoadLaneLinks(m: XodrMaps.XodrMap, a: RoadContactPointKey, b: RoadContactPointKey): (o: Outcome)
    requires XodrMaps.Linked(m) && ValidRoadKey(m, a) && ValidRoadKey(m, b)
    ensures o.Honest()
    ensures o.ok <==> PairSymmetric(PairFor(m, a, b))
    ensures forall e :: e in o.errors ==> e.IsLaneError()
  {
    ValidateLaneLinks(PairFor(m, a, b))
  }

  // ---- inside one road ----

  /** Pairs `2i` and `2i + 1` are the boundary between sections `i` and `i + 1`, in both directions. */
  predicate BoundaryPairsAt(ps: seq<SectionPair>, sections: seq<LaneSection>, roadIdx: int, i: int)
    requires 0 <= i < |sections| - 1 && 2 * i + 1 < |ps|
  {
    && ps[2 * i] == SectionPair(sections[i], sections[i + 1],
                                LaneSectionContactPointKey(roadIdx, i, End),
                                LaneSectionContactPointKey(roadIdx, i + 1, Start))
    && ps[2 * i + 1] == SectionPair(sections[i + 1], sections[i],
                                    LaneSectionContactPointKey(roadIdx, i + 1, Start),
                                    LaneSectionContactPointKey(roadIdx, i, End))
  }

  /** The section pairs `validateRoadInternalLaneLinks` checks: for each boundary
      `i`, first the end of section `i` against the start of `i + 1`, then back. */
  function InternalPairs(sections: seq<LaneSection>, roadIdx: int): (ps: seq<SectionPair>)
    requires forall s :: 0 <= s < |sections| ==> sections[s].LeftCountInRange()
    ensures |sections| > 0 ==> |ps| == 2 * (|sections| - 1)
    ensures |sections| == 0 ==> ps == []
    ensures forall j :: 0 <= j < |ps| ==> ps[j].Valid()
    ensures forall i :: 0 <= i < |sections| - 1 ==> BoundaryPairsAt(ps, sections, roadIdx, i)
    decreases |sections|
  {
    if |sections| <= 1 then []
    else
      var n := |sections| - 1;
      var prev := InternalPairs(sections[..n], roadIdx);
      var k1 := LaneSectionContactPointKey(roadIdx, n - 1, End);
      var k2 := LaneSectionContactPointKey(roadIdx, n, Start);
      var ps := prev + [SectionPair(sections[n - 1], sections[n], k1, k2), SectionPair(sections[n], sections[n - 1], k2, k1)];
      assert forall i :: 0 <= i < n - 1 ==> BoundaryPairsAt(prev, sections[..n], roadIdx, i);
      assert forall i :: 0 <= i < n - 1 ==> BoundaryPairsAt(ps, sections, roadIdx, i) by {
        forall i | 0 <= i < n - 1
          ensures BoundaryPairsAt(ps, sections, roadIdx, i)
        {
          assert BoundaryPairsAt(prev, sections[..n], roadIdx, i);
          assert ps[2 * i] == prev[2 * i] && ps[2 * i + 1] == prev[2 * i + 1];
          assert sections[..n][i] == sections[i] && sections[..n][i + 1] == sections[i + 1];
        }
      }
      assert BoundaryPairsAt(ps, sections, roadIdx, n - 1);
      ps
  }

  /** `validateLaneLinks` on pair `j`, with only the facts the fold needs. */
  function InternalStep(ps: seq<SectionPair>, j: nat): (o: Outcome)
    requires j < |ps| && ps[j].Valid()
    ensures o.Honest()
    ensures o.ok <==> PairSymmetric(ps[j])
    ensures forall e :: e in o.errors ==> e.IsLaneError()
  {
    ValidateLaneLinks(ps[j])
  }

  /** `validateRoadInternalLaneLinks`: `validateLaneLinks` on every pair above,
      all of them run whatever the earlier ones returned. */
  function ValidateRoadInternalLaneLinks(m: XodrMaps.XodrMap, roadIdx: int): (o: Outcome)
    requires XodrMaps.Linked(m) && 0 <= roadIdx < |m.roads|
    ensures o.Honest()
    ensures o.ok <==> AllPairsSymmetric(InternalPairs(m.roads[roadIdx].laneSections, roadIdx))
    ensures |m.roads[roadIdx].laneSections| == 1 ==> o == Pass()
    ensures forall e :: e in o.errors ==> e.IsLaneError()
  {
    SectionsInternalLaneLinks(m.roads[roadIdx].laneSections, roadIdx)
  }

  /** The same over the sections of road `roadIdx` alone. */
  function SectionsInternalLaneLinks(secs: seq<LaneSection>, roadIdx: int): (o: Outcome)
    requires forall s :: 0 <= s < |secs| ==> secs[s].LeftCountInRange()
    ensures o.Honest()
    ensures o.ok <==> AllPairsSymmetric(InternalPairs(secs, roadIdx))
    ensures |secs| == 1 ==> o == Pass()
    ensures forall e :: e in o.errors ==> e.IsLaneError()
  {
    FoldPairs(InternalPairs(secs, roadIdx))
  }

  /** Every pair passes `validateLaneLinks`. */
  predicate AllPairsSymmetric(ps: seq<SectionPair>)
    requires forall j :: 0 <= j < |ps| ==> ps[j].Valid()
  {
    forall j: nat :: j < |ps| ==> PairSymmetric(ps[j])
  }

  /** `validateLaneLinks` on each pair in turn. */
  function FoldPairs(ps: seq<SectionPair>): (o: Outcome)
    requires forall j :: 0 <= j < |ps| ==> ps[j].Valid()
    ensures o.Honest()
    ensures o.ok <==> AllPairsSymmetric(ps)
    ensures ps == [] ==> o == Pass()
    ensures forall e :: e in o.errors ==> e.IsLaneError()
    decreases |ps|
  {
    if |ps| == 0 then Pass()
    else
      var n := |ps| - 1;
      var init := ps[..n];
      assert forall j :: 0 <= j < n ==> init[j] == ps[j];
      var prev := FoldPairs(init);
      var last := InternalStep(ps, n);
      assert AllPairsSymmetric(ps) <==> AllPairsSymmetric(init) && PairSymmetric(ps[n]);
      Also(prev, last)
  }

  // ---- across a junction ----

  /** The connection's lane links carry `toId` (a lane of the incoming road) back onto `fromId`. */
  predicate BackLinkedVia(conn: Junctions.Connection, fromId: int, toId: LaneIds.LaneId) {
    var back := Junctions.FindLaneLinkTarget(conn.laneLinks, toId);
    back.HasValue() && back.EqualsInt(fromId)
  }

  /** The back-link test against the connection's lane links. */
  function BackLinkInConnection(p: SectionPair, conn: Junctions.Connection, fromId: int, toId: LaneIds.LaneId)
    : (o: Outcome)
    ensures o.Honest() && |o.errors| == (if o.ok then 0 else 1)
    ensures o.ok <==> BackLinkedVia(conn, fromId, toId)
    ensures !Junctions.FindLaneLinkTarget(conn.laneLinks, toId).HasValue() ==>
              o.errors == [LaneBackLinkNotSpecified(p.fromKey, p.toKey, fromId, toId)]
    ensures forall e :: e in o.errors ==> e.IsLaneError()
  {
    var back := Junctions.FindLaneLinkTarget(conn.laneLinks, toId);
    if back.HasValue() then
      if back.Deref() != fromId then Fail(LaneLinkMisMatch(p.fromKey, p.toKey, fromId, toId, back.Deref())) else Pass()
    else Fail(LaneBackLinkNotSpecified(p.fromKey, p.toKey, fromId, toId))
  }

  /** The loop body of `validateConnectingIncomingLaneLinks` as written: the
      back-link of lane `i` is looked up among the connection's lane links, and a
      failed range test appends its error without clearing `success`. */
  function ConnectingIncomingStepAsWritten(p: SectionPair, conn: Junctions.Connection, i: nat): (o: Outcome)
    requires p.Valid() && i < |p.from.lanes|
    ensures |o.errors| <= 1 && forall e :: e in o.errors ==> e.IsLaneError()
    ensures o.ok <==> !p.from.lanes[i].HasLink(p.LinkType()) || !p.LinkAcceptable(i)
                      || BackLinkedVia(conn, p.FromId(i), p.from.lanes[i].Link(p.LinkType()))
  {
    var t := p.LinkType();
    var lane := p.from.lanes[i];
    if !lane.HasLink(t) then Pass()
    else
      var r := p.RangeCheck(i);
      if !r.ok then Outcome(true, r.errors)
      else BackLinkInConnection(p, conn, p.FromId(i), lane.Link(t))
  }

  function ConnectingIncomingAsWritten(p: SectionPair, conn: Junctions.Connection): (o: Outcome)
    requires p.Valid()
    ensures o.ok <==> forall i: nat :: i < |p.from.lanes| ==> ConnectingIncomingStepAsWritten(p, conn, i).ok
    ensures forall e :: e in o.errors ==> e.IsLaneError()
  {
    var step := (i: nat) requires i < |p.from.lanes| => ConnectingIncomingStepAsWritten(p, conn, i);
    var o := Fold(|p.from.lanes|, step);
    assert forall i: nat :: i < |p.from.lanes| ==> step(i) == ConnectingIncomingStepAsWritten(p, conn, i);
    o
  }

  /** A connecting road whose only lane, left lane 1, links its successor to the
      centre lane of the incoming road: the code as written reports the error and
      still returns `true`; the corrected validator returns `false`. */
  lemma CenterLinkKeepsSuccess(conn: Junctions.Connection)
    ensures var p := CenterLinkedPair();
            && ConnectingIncomingAsWritten(p, conn) == Outcome(true, [LaneLinkToCenterLane(p.fromKey, p.toKey, 1)])
            && !ConnectingIncoming(p, conn).ok
  {
    var p := CenterLinkedPair();
    assert p.from.lanes[0].HasLink(p.LinkType());
    assert p.FromId(0) == 1;
    assert p.RangeCheck(0) == Fail(LaneLinkToCenterLane(p.fromKey, p.toKey, 1));
    assert ConnectingIncomingStepAsWritten(p, conn, 0) == Outcome(true, [LaneLinkToCenterLane(p.fromKey, p.toKey, 1)]);
    assert !ConnectingIncomingStep(p, conn, 0).ok;
  }

  /** The sections of that counterexample: road 0 ends where road 1 starts. */
  function CenterLinkedPair(): (p: SectionPair)
    ensures p.Valid() && |p.from.lanes| == 1 && p.LinkType() == Successor
  {
    var lane := LaneSections.NewLane(1, LaneTypes.Driving, false, [], 0).(successor := LaneIds.FromId(0));
    var sec := LaneSections.LaneSection(0.0, 1.0, false, [lane], 1);
    SectionPair(sec, sec, LaneSectionContactPointKey(0, 0, End), LaneSectionContactPointKey(1, 0, Start))
  }

  /** Lane `i` passes `validateConnectingIncomingLaneLinks`: an acceptable link
      that the connection carries back. */
  predicate IncomingAccepted(p: SectionPair, conn: Junctions.Connection, i: nat)
    requires p.Valid() && i < |p.from.lanes|
  {
    p.LinkAcceptable(i)
    && (p.from.lanes[i].HasLink(p.LinkType()) ==> BackLinkedVia(conn, p.FromId(i), p.from.lanes[i].Link(p.LinkType())))
  }

  /** The corrected loop body: a failed range test fails the lane. */
  function ConnectingIncomingStep(p: SectionPair, conn: Junctions.Connection, i: nat): (o: Outcome)
    requires p.Valid() && i < |p.from.lanes|
    ensures o.Honest() && |o.errors| <= 1
    ensures o.ok <==> IncomingAccepted(p, conn, i)
    ensures forall e :: e in o.errors ==> e.IsLaneError()
  {
    var t := p.LinkType();
    var lane := p.from.lanes[i];
    if !lane.HasLink(t) then Pass()
    else
      var r := p.RangeCheck(i);
      if !r.ok then r
      else BackLinkInConnection(p, conn, p.FromId(i), lane.Link(t))
  }

  /** `validateConnectingIncomingLaneLinks`, corrected: the lanes of a connecting
      road linked onto the incoming road its connection comes from. */
  function ConnectingIncoming(p: SectionPair, conn: Junctions.Connection): (o: Outcome)
    requires p.Valid()
    ensures o.Honest()
    ensures o.ok <==> forall i: nat :: i < |p.from.lanes| ==> IncomingAccepted(p, conn, i)
    ensures forall e :: e in o.errors ==> e.IsLaneError()
  {
    var step := (i: nat) requires i < |p.from.lanes| => ConnectingIncomingStep(p, conn, i);
    var o := Fold(|p.from.lanes|, step);
    assert forall i: nat :: i < |p.from.lanes| ==> step(i) == ConnectingIncomingStep(p, conn, i);
    assert forall i: nat :: i < |p.from.lanes| ==> (step(i).ok <==> IncomingAccepted(p, conn, i));
    o
  }

  /** The two agree whenever every link passes its range test. */
  lemma {:induction false} IncomingAgreesWhenInRange(p: SectionPair, conn: Junctions.Connection, n: nat)
    requires p.Valid() && n <= |p.from.lanes|
    requires forall i: nat :: i < n ==> p.LinkAcceptable(i)
    ensures Fold(n, (i: nat) requires i < |p.from.lanes| => ConnectingIncomingStepAsWritten(p, conn, i))
         == Fold(n, (i: nat) requires i < |p.from.lanes| => ConnectingIncomingStep(p, conn, i))
    decreases n
  {
    if n > 0 {
      IncomingAgreesWhenInRange(p, conn, n - 1);
      assert ConnectingIncomingStepAsWritten(p, conn, n - 1) == ConnectingIncomingStep(p, conn, n - 1);
    }
  }

  /** The loop body of `validateConnectingOutgoingLaneLinks`: the range test only. */
  function ConnectingOutgoingStep(p: SectionPair, i: nat): (o: Outcome)
    requires p.Valid() && i < |p.from.lanes|
    ensures o.Honest() && |o.errors| <= 1
    ensures o.ok <==> p.LinkAcceptable(i)
    ensures forall e :: e in o.errors ==> e.IsLaneError()
  {
    if p.from.lanes[i].HasLink(p.LinkType()) then p.RangeCheck(i) else Pass()
  }

  /** `validateConnectingOutgoingLaneLinks`: a connecting road leaving towards a
      road whose own link names the junction; the back-link is not checked. */
  function ConnectingOutgoing(p: SectionPair): (o: Outcome)
    requires p.Valid()
    ensures o.Honest()
    ensures o.ok <==> forall i: nat :: i < |p.from.lanes| ==> p.LinkAcceptable(i)
    ensures forall e :: e in o.errors ==> e.IsLaneError()
  {
    var step := (i: nat) requires i < |p.from.lanes| => ConnectingOutgoingStep(p, i);
    var o := Fold(|p.from.lanes|, step);
    assert forall i: nat :: i < |p.from.lanes| ==> step(i) == ConnectingOutgoingStep(p, i);
    assert forall i: nat :: i < |p.from.lanes| ==> (step(i).ok <==> p.LinkAcceptable(i));
    o
  }

  /** A connecting road's check is weaker than the road-road one: a symmetric
      pair passes the outgoing test. */
  lemma SymmetricPassesOutgoing(p: SectionPair)
    requires p.Valid() && PairSymmetric(p)
    ensures ConnectingOutgoing(p).ok
  {
    forall i: nat | i < |p.from.lanes|
      ensures p.LinkAcceptable(i)
    {
      assert p.LaneSymmetric(i);
    }
  }

  // ---- the lane links of a connection ----

  /** The centre-lane error of a lane link: exactly one end is the centre lane,
      reported from the side of the end that is not. */
  function CenterErrors(p: SectionPair, f: int, t: int): (es: seq<LinkValidationError>)
    ensures |es| <= 1 && (es == [] <==> (f == 0) == (t == 0))
    ensures f != 0 && t == 0 ==> es == [LaneLinkToCenterLane(p.fromKey, p.toKey, f)]
    ensures f == 0 && t != 0 ==> es == [LaneLinkToCenterLane(p.toKey, p.fromKey, t)]
  {
    if f != 0 && t == 0 then [LaneLinkToCenterLane(p.fromKey, p.toKey, f)]
    else if f == 0 && t != 0 then [LaneLinkToCenterLane(p.toKey, p.fromKey, t)]
    else []
  }

  /** The out-of-range error for the connecting road's end `t`. */
  function ToRangeErrors(p: SectionPair, f: int, t: int): (es: seq<LinkValidationError>)
    ensures es == [] <==> p.InToRange(t)
    ensures es != [] ==> es == [LaneLinkTargetOutOfRange(p.fromKey, p.toKey, f, t)]
  {
    if !p.InToRange(t) then [LaneLinkTargetOutOfRange(p.fromKey, p.toKey, f, t)] else []
  }

  /** The out-of-range error for the incoming road's end `f`, reported from the other side. */
  function FromRangeErrors(p: SectionPair, f: int, t: int): (es: seq<LinkValidationError>)
    ensures es == [] <==> p.InFromRange(f)
    ensures es != [] ==> es == [LaneLinkTargetOutOfRange(p.toKey, p.fromKey, t, f)]
  {
    if !p.InFromRange(f) then [LaneLinkTargetOutOfRange(p.toKey, p.fromKey, t, f)] else []
  }

  /** The lane link passes the centre and range tests. */
  predicate LaneLinkWellPlaced(p: SectionPair, l: Junctions.LaneLink) {
    (l.from == 0) == (l.to == 0) && p.InFromRange(l.from) && p.InToRange(l.to)
  }

  /** A well-placed link between two non-centre lanes runs the right way and is linked back. */
  predicate LaneLinkConsistent(p: SectionPair, l: Junctions.LaneLink)
    requires p.Valid() && LaneLinkWellPlaced(p, l) && l.to != 0
  {
    var b := LaneSections.LaneById(p.to, l.to);
    && SameSide(l.from, l.to) != OpposingDirections(p.fromKey, p.toKey)
    && b.HasLink(p.BackLinkType()) && b.Link(p.BackLinkType()) == l.from
  }

  /** The loop body of `validateIncomingConnectingLaneLinks` for one lane link of
      the connection, `p` running from the incoming road to the connecting road. */
  function IncomingConnectingStep(p: SectionPair, l: Junctions.LaneLink): (o: Outcome)
    requires p.Valid()
    ensures o.Honest() && |o.errors| <= 3
    ensures o.ok <==> LaneLinkWellPlaced(p, l) && (l.to != 0 ==> LaneLinkConsistent(p, l))
    ensures !LaneLinkWellPlaced(p, l) ==>
              o.errors == CenterErrors(p, l.from, l.to) + ToRangeErrors(p, l.from, l.to) + FromRangeErrors(p, l.from, l.to)
    ensures LaneLinkWellPlaced(p, l) ==> |o.errors| <= 1
    ensures forall e :: e in o.errors ==> e.IsLaneError()
  {
    var f := l.from;
    var t := l.to;
    var errs := CenterErrors(p, f, t) + ToRangeErrors(p, f, t) + FromRangeErrors(p, f, t);
    if errs != [] then Outcome(false, errs)
    else if f == 0 || t == 0 then Pass()
    else if SameSide(f, t) == OpposingDirections(p.fromKey, p.toKey) then
      Fail(LaneLinkOpposingDirections(p.fromKey, p.toKey, f, t))
    else
      var b := LaneSections.LaneById(p.to, t);
      var bt := p.BackLinkType();
      if b.HasLink(bt) then
        if b.Link(bt) != f then Fail(LaneLinkMisMatch(p.fromKey, p.toKey, f, t, b.Link(bt))) else Pass()
      else Fail(LaneBackLinkNotSpecified(p.fromKey, p.toKey, f, t))
  }

  /** A link between the two centre lanes is skipped without a message. */
  lemma CenterToCenterSkipped(p: SectionPair, l: Junctions.LaneLink)
    requires p.Valid() && l.from == 0 && l.to == 0
    ensures IncomingConnectingStep(p, l) == Pass()
  {
  }

  /** A centre or range error stops the link's checks: no direction or back-link error follows. */
  lemma MisplacedLinkSkipsLaterChecks(p: SectionPair, l: Junctions.LaneLink)
    requires p.Valid() && !LaneLinkWellPlaced(p, l)
    ensures forall e :: e in IncomingConnectingStep(p, l).errors ==> e.LaneLinkToCenterLane? || e.LaneLinkTargetOutOfRange?
  {
  }

  /** `validateIncomingConnectingLaneLinks` over the connection's lane links. */
  function IncomingConnecting(p: SectionPair, conn: Junctions.Connection): (o: Outcome)
    requires p.Valid()
    ensures o.Honest()
    ensures o.ok <==> forall k: nat :: k < |conn.laneLinks| ==> IncomingConnectingStep(p, conn.laneLinks[k]).ok
    ensures forall e :: e in o.errors ==> e.IsLaneError()
  {
    var step := (k: nat) requires k < |conn.laneLinks| => IncomingConnectingStep(p, conn.laneLinks[k]);
    var o := Fold(|conn.laneLinks|, step);
    assert forall k: nat :: k < |conn.laneLinks| ==> step(k) == IncomingConnectingStep(p, conn.laneLinks[k]);
    o
  }

  /** The loop body of `validateConnectingConnectingLaneLinks`: the centre test,
      then the range of each end, every failure reported. */
  function ConnectingConnectingStep(p: SectionPair, l: Junctions.LaneLink): (o: Outcome)
    ensures o.Honest() && |o.errors| <= 3
    ensures o.ok <==> LaneLinkWellPlaced(p, l)
    ensures o.errors == CenterErrors(p, l.from, l.to) + FromRangeErrors(p, l.from, l.to) + ToRangeErrors(p, l.from, l.to)
    ensures forall e :: e in o.errors ==> e.IsLaneError()
  {
    var errs := CenterErrors(p, l.from, l.to) + FromRangeErrors(p, l.from, l.to) + ToRangeErrors(p, l.from, l.to);
    Outcome(errs == [], errs)
  }

  /** `validateConnectingConnectingLaneLinks` over the lane links of `conn`. */
  function ConnectingConnecting(p: SectionPair, conn: Junctions.Connection): (o: Outcome)
    ensures o.Honest()
    ensures o.ok <==> forall k: nat :: k < |conn.laneLinks| ==> LaneLinkWellPlaced(p, conn.laneLinks[k])
    ensures forall e :: e in o.errors ==> e.IsLaneError()
  {
    var step := (k: nat) requires k < |conn.laneLinks| => ConnectingConnectingStep(p, conn.laneLinks[k]);
    var o := Fold(|conn.laneLinks|, step);
    assert forall k: nat :: k < |conn.laneLinks| ==> step(k) == ConnectingConnectingStep(p, conn.laneLinks[k]);
    o
  }
}
