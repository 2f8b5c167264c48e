/** `Junction`: connections from incoming roads onto connecting roads, the
    connection queries the validators use, and the lane links of a connection. */
module Junctions {
  import opened Wrappers
  import opened ObjectRefs
  import opened RoadLinks
  import LaneIds

  /** `Junction::LaneLink`: lane `from` of the incoming road continues on lane `to`. */
  datatype LaneLink = LaneLink(from: LaneIds.LaneId, to: LaneIds.LaneId)

  /** `Junction::Connection`. */
  datatype Connection = Connection(
    id: string,
    incomingRoad: ObjectRef,
    connectingRoad: ObjectRef,
    contactPoint: ContactPoint,
    laneLinks: seq<LaneLink>)

  /** `Junction`. */
  datatype Junction = Junction(name: string, id: string, connections: seq<Connection>)

  /** Both road references of every connection point at a road (`index()` asserts `index_ >= 0`). */
  predicate RoadsResolved(j: Junction) {
    forall k :: 0 <= k < |j.connections| ==>
      j.connections[k].incomingRoad.index >= 0 && j.connections[k].connectingRoad.index >= 0
  }

  predicate Matches(c: Connection, incomingRoadIdx: int, connectingRoadIdx: int, cp: ContactPoint) {
    c.incomingRoad.index == incomingRoadIdx && c.connectingRoad.index == connectingRoadIdx && c.contactPoint == cp
  }

  /** `findConnection`: the position of the first matching connection. */
  function FindConnection(j: Junction, incomingRoadIdx: int, connectingRoadIdx: int, cp: ContactPoint)
    : (r: Option<nat>)
    requires cp != ContactPoint.NotSpecified && RoadsResolved(j)
    ensures r.Some? ==> r.value < |j.connections|
                        && Matches(j.connections[r.value], incomingRoadIdx, connectingRoadIdx, cp)
                        && forall k :: 0 <= k < r.value ==> !Matches(j.connections[k], incomingRoadIdx, connectingRoadIdx, cp)
    ensures r.None? <==> forall k :: 0 <= k < |j.connections| ==>
                           !Matches(j.connections[k], incomingRoadIdx, connectingRoadIdx, cp)
  {
    FirstMatch(j.connections, 0, incomingRoadIdx, connectingRoadIdx, cp)
  }

  function FirstMatch(conns: seq<Connection>, from: nat, incomingRoadIdx: int, connectingRoadIdx: int, cp: ContactPoint)
    : (r: Option<nat>)
    requires from <= |conns|
    ensures r.Some? ==> from <= r.value < |conns|
                        && Matches(conns[r.value], incomingRoadIdx, connectingRoadIdx, cp)
                        && forall k :: from <= k < r.value ==> !Matches(conns[k], incomingRoadIdx, connectingRoadIdx, cp)
    ensures r.None? <==> forall k :: from <= k < |conns| ==> !Matches(conns[k], incomingRoadIdx, connectingRoadIdx, cp)
    decreases |conns| - from
  {
    if from == |conns| then None
    else if Matches(conns[from], incomingRoadIdx, connectingRoadIdx, cp) then Some(from)
    else FirstMatch(conns, from + 1, incomingRoadIdx, connectingRoadIdx, cp)
  }

  /** `hasConnection`: a scan that stops at the first match. */
  method HasConnection(j: Junction, incomingRoadIdx: int, connectingRoadIdx: int, cp: ContactPoint) returns (found: bool)
    requires cp != ContactPoint.NotSpecified && RoadsResolved(j)
    ensures found <==> exists k :: 0 <= k < |j.connections| && Matches(j.connections[k], incomingRoadIdx, connectingRoadIdx, cp)
    ensures found <==> FindConnection(j, incomingRoadIdx, connectingRoadIdx, cp).Some?
  {
    var i := 0;
    while i < |j.connections|
      invariant 0 <= i <= |j.connections|
      invariant forall k :: 0 <= k < i ==> !Matches(j.connections[k], incomingRoadIdx, connectingRoadIdx, cp)
    {
      var c := j.connections[i];
      if c.incomingRoad.index == incomingRoadIdx && c.connectingRoad.index == connectingRoadIdx && c.contactPoint == cp {
        return true;
      }
      i := i + 1;
    }
    return false;
  }

  /** `hasOutgoingConnection`: some connection leaves the connecting road at
      the contact point opposite to `cp`. */
  method HasOutgoingConnection(j: Junction, connectingRoadIdx: int, cp: ContactPoint) returns (found: bool)
    requires cp != ContactPoint.NotSpecified && RoadsResolved(j)
    ensures found <==> exists k :: 0 <= k < |j.connections|
                         && j.connections[k].connectingRoad.index == connectingRoadIdx
                         && j.connections[k].contactPoint == OppositeContactPoint(cp)
  {
    var incomingContactPoint := OppositeContactPoint(cp);
    var i := 0;
    while i < |j.connections|
      invariant 0 <= i <= |j.connections|
      invariant forall k :: 0 <= k < i ==>
                  !(j.connections[k].connectingRoad.index == connectingRoadIdx
                    && j.connections[k].contactPoint == incomingContactPoint)
    {
      var c := j.connections[i];
      if c.connectingRoad.index == connectingRoadIdx && c.contactPoint == incomingContactPoint {
        return true;
      }
      i := i + 1;
    }
    return false;
  }

  /** The reverse of a connection entering at `cp` is one entering at the opposite contact point. */
  lemma OutgoingIsOppositeIncoming(j: Junction, incomingRoadIdx: int, connectingRoadIdx: int, cp: ContactPoint)
    requires cp != ContactPoint.NotSpecified && RoadsResolved(j)
    requires FindConnection(j, incomingRoadIdx, connectingRoadIdx, OppositeContactPoint(cp)).Some?
    ensures exists k :: 0 <= k < |j.connections|
              && j.connections[k].connectingRoad.index == connectingRoadIdx
              && j.connections[k].contactPoint == OppositeContactPoint(cp)
  {
    var k := FindConnection(j, incomingRoadIdx, connectingRoadIdx, OppositeContactPoint(cp)).value;
    assert j.connections[k].connectingRoad.index == connectingRoadIdx;
  }

  /** `Connection::resolveReferences`: both roads are looked up in the road table. */
  function ResolveConnection(c: Connection, maps: IdToIndexMaps): (r: Result<Connection, string>)
    requires !c.incomingRoad.IsResolved() && !c.connectingRoad.IsResolved()
    ensures r.Success? <==> c.incomingRoad.id in maps.roadIdToIndex && c.connectingRoad.id in maps.roadIdToIndex
    ensures r.Success? ==> r.value == c.(incomingRoad := r.value.incomingRoad, connectingRoad := r.value.connectingRoad)
                           && r.value.incomingRoad.index == maps.roadIdToIndex[c.incomingRoad.id]
                           && r.value.connectingRoad.index == maps.roadIdToIndex[c.connectingRoad.id]
  {
    match Resolve(c.incomingRoad, maps.roadIdToIndex, "road")
    case Failure(e) => Failure(e)
    case Success(inc) =>
      match Resolve(c.connectingRoad, maps.roadIdToIndex, "road")
      case Failure(e) => Failure(e)
      case Success(con) => Success(c.(incomingRoad := inc, connectingRoad := con))
  }

  predicate ConnectionsUnresolved(j: Junction) {
    forall k :: 0 <= k < |j.connections| ==>
      !j.connections[k].incomingRoad.IsResolved() && !j.connections[k].connectingRoad.IsResolved()
  }

  /** `Junction::resolveReferences`: every connection in order; the first failure propagates. */
  function ResolveJunction(j: Junction, maps: IdToIndexMaps): (r: Result<Junction, string>)
    requires ConnectionsUnresolved(j)
    ensures r.Success? <==> forall k :: 0 <= k < |j.connections| ==> ResolveConnection(j.connections[k], maps).Success?
    ensures r.Success? ==> r.value.name == j.name && r.value.id == j.id && |r.value.connections| == |j.connections|
                           && RoadsResolved(r.value)
                           && forall k :: 0 <= k < |j.connections| ==>
                                r.value.connections[k] == ResolveConnection(j.connections[k], maps).value
    decreases |j.connections|
  {
    if |j.connections| == 0 then Success(j)
    else
      var n := |j.connections|;
      var init := j.(connections := j.connections[..n - 1]);
      assert forall k :: 0 <= k < n - 1 ==> init.connections[k] == j.connections[k];
      match ResolveJunction(init, maps)
      case Failure(e) => Failure(e)
      case Success(done) =>
        match ResolveConnection(j.connections[n - 1], maps)
        case Failure(e) => Failure(e)
        case Success(c) => Success(done.(connections := done.connections + [c]))
  }

  // ---- lane links ----

  /** `findLaneLinkTarget`: the target of the first lane link leaving `fromLane`. */
  function FindLaneLinkTarget(links: seq<LaneLink>, fromLane: LaneIds.LaneId): (t: LaneIds.LaneIdOpt)
    ensures t == LaneIds.NullOpt() || exists k :: 0 <= k < |links| && links[k].from == fromLane && t == LaneIds.FromId(links[k].to)
    ensures (forall k :: 0 <= k < |links| ==> links[k].from != fromLane) ==> t == LaneIds.NullOpt()
    decreases |links|
  {
    if |links| == 0 then LaneIds.NullOpt()
    else if links[0].from == fromLane then LaneIds.FromId(links[0].to)
    else
      var t := FindLaneLinkTarget(links[1..], fromLane);
      assert forall k :: 0 <= k < |links| - 1 ==> links[1..][k] == links[k + 1];
      t
  }

  /** The position of the first lane link leaving `fromLane`. */
  function FirstFrom(links: seq<LaneLink>, fromLane: LaneIds.LaneId): (r: Option<nat>)
    ensures r.Some? ==> r.value < |links| && links[r.value].from == fromLane
                        && forall k :: 0 <= k < r.value ==> links[k].from != fromLane
    ensures r.None? <==> forall k :: 0 <= k < |links| ==> links[k].from != fromLane
    decreases |links|
  {
    if |links| == 0 then None
    else if links[0].from == fromLane then Some(0)
    else
      match FirstFrom(links[1..], fromLane)
      case None => None
      case Some(k) => Some(k + 1)
  }

  /** `test_setLaneLinkTarget`: retarget (or, for a null target, erase) the
      first link leaving `fromLane`; with no such link, append one for a
      non-null target. */
  function SetLaneLinkTarget(links: seq<LaneLink>, fromLane: LaneIds.LaneId, to: LaneIds.LaneIdOpt)
    : (r: seq<LaneLink>)
    ensures match FirstFrom(links, fromLane)
            case Some(k) =>
              if to.HasValue() then r == links[k := LaneLink(fromLane, to.Deref())]
              else r == links[..k] + links[k + 1..]
            case None =>
              if to.HasValue() then r == links + [LaneLink(fromLane, to.Deref())] else r == links
  {
    match FirstFrom(links, fromLane)
    case Some(k) =>
      if to.HasValue() then links[k := LaneLink(fromLane, to.Deref())]
      else links[..k] + links[k + 1..]
    case None =>
      if to.HasValue() then links + [LaneLink(fromLane, to.Deref())] else links
  }

  /** The first link leaving `fromLane` decides the target. */
  lemma {:induction false} FindAtFirst(links: seq<LaneLink>, k: nat, fromLane: LaneIds.LaneId)
    requires k < |links| && links[k].from == fromLane
    requires forall i :: 0 <= i < k ==> links[i].from != fromLane
    ensures FindLaneLinkTarget(links, fromLane) == LaneIds.FromId(links[k].to)
    decreases k
  {
    if k > 0 {
      FindAtFirst(links[1..], k - 1, fromLane);
    }
  }

  /** Replacing links that leave lanes other than `other` does not change the target of `other`. */
  lemma {:induction false} FindSameFroms(a: seq<LaneLink>, b: seq<LaneLink>, other: LaneIds.LaneId)
    requires |a| == |b|
    requires forall i :: 0 <= i < |a| ==> (a[i].from == other <==> b[i].from == other)
    requires forall i :: 0 <= i < |a| && a[i].from == other ==> a[i] == b[i]
    ensures FindLaneLinkTarget(a, other) == FindLaneLinkTarget(b, other)
    decreases |a|
  {
    if |a| > 0 && a[0].from != other {
      FindSameFroms(a[1..], b[1..], other);
    }
  }

  /** Removing a link that does not leave `other` does not change the target of `other`. */
  lemma {:induction false} FindSkip(links: seq<LaneLink>, k: nat, other: LaneIds.LaneId)
    requires k < |links| && links[k].from != other
    ensures FindLaneLinkTarget(links[..k] + links[k + 1..], other) == FindLaneLinkTarget(links, other)
    decreases k
  {
    if k == 0 {
      assert links[..k] + links[k + 1..] == links[1..];
    } else if links[0].from != other {
      FindSkip(links[1..], k - 1, other);
      assert (links[..k] + links[k + 1..])[1..] == links[1..][..k - 1] + links[1..][k..];
    } else {
      assert (links[..k] + links[k + 1..])[0] == links[0];
    }
  }

  /** Appending a link that does not leave `other` does not change the target of `other`. */
  lemma {:induction false} FindAppendOther(links: seq<LaneLink>, x: LaneLink, other: LaneIds.LaneId)
    requires x.from != other
    ensures FindLaneLinkTarget(links + [x], other) == FindLaneLinkTarget(links, other)
    decreases |links|
  {
    if |links| == 0 {
      assert links + [x] == [x];
      assert [x][1..] == [];
    } else if links[0].from != other {
      FindAppendOther(links[1..], x, other);
      assert (links + [x])[1..] == links[1..] + [x];
    }
  }

  /** Links leaving other lanes keep their target when `fromLane` is retargeted. */
  lemma FindOtherUnchanged(links: seq<LaneLink>, fromLane: LaneIds.LaneId, to: LaneIds.LaneIdOpt,
                           other: LaneIds.LaneId)
    requires other != fromLane
    ensures FindLaneLinkTarget(SetLaneLinkTarget(links, fromLane, to), other) == FindLaneLinkTarget(links, other)
  {
    var r := SetLaneLinkTarget(links, fromLane, to);
    match FirstFrom(links, fromLane)
    case Some(k) =>
      if to.HasValue() {
        FindSameFroms(r, links, other);
      } else {
        FindSkip(links, k, other);
      }
    case None =>
      if to.HasValue() {
        FindAppendOther(links, LaneLink(fromLane, to.Deref()), other);
      }
  }

  /** Setting a non-null target makes it the target found for `fromLane`. */
  lemma SetThenFind(links: seq<LaneLink>, fromLane: LaneIds.LaneId, to: LaneIds.LaneIdOpt)
    requires to.HasValue()
    ensures FindLaneLinkTarget(SetLaneLinkTarget(links, fromLane, to), fromLane) == to
  {
    var r := SetLaneLinkTarget(links, fromLane, to);
    match FirstFrom(links, fromLane)
    case Some(k) =>
      FindAtFirst(r, k, fromLane);
    case None =>
      FindAtFirst(r, |links|, fromLane);
  }

  /** Erasing the only link leaving `fromLane` leaves no target for it. */
  lemma EraseUniqueThenNull(links: seq<LaneLink>, fromLane: LaneIds.LaneId)
    requires forall a, b :: 0 <= a < b < |links| ==> links[a].from != fromLane || links[b].from != fromLane
    ensures FindLaneLinkTarget(SetLaneLinkTarget(links, fromLane, LaneIds.NullOpt()), fromLane) == LaneIds.NullOpt()
  {
    var r := SetLaneLinkTarget(links, fromLane, LaneIds.NullOpt());
    match FirstFrom(links, fromLane)
    case Some(k) =>
      assert forall i :: 0 <= i < k ==> r[i] == links[i];
      assert forall i :: k <= i < |r| ==> r[i] == links[i + 1];
      assert forall i :: 0 <= i < |r| ==> r[i].from != fromLane;
    case None =>
  }
}
