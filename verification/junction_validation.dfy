/** Junction membership (`junction_validation.cpp`): a road that names a junction
    must be a connecting road of it, and every connecting road of a junction must
    name that junction. */
module JunctionValidation {
  import opened Wrappers
  import Junctions
  import XodrMaps

  type XodrMap = XodrMaps.XodrMap

  /** Some connection of `j` has `roadIdx` as its connecting road. */
  predicate ContainsRoad(j: Junctions.Junction, roadIdx: int) {
    exists k :: 0 <= k < |j.connections| && j.connections[k].connectingRoad.index == roadIdx
  }

  /** `junctionContainsRoad`: a scan over the connections that stops at the first hit. */
  method JunctionContainsRoad(j: Junctions.Junction, roadIdx: int) returns (found: bool)
    ensures found <==> ContainsRoad(j, roadIdx)
  {
    var k := 0;
    while k < |j.connections|
      invariant 0 <= k <= |j.connections|
      invariant forall i :: 0 <= i < k ==> j.connections[i].connectingRoad.index != roadIdx
    {
      if j.connections[k].connectingRoad.index == roadIdx {
        return true;
      }
      k := k + 1;
    }
    return false;
  }

  /** The two ways membership can fail, with the indices the messages name. */
  datatype MembershipError =
    | RoadNotInJunction(roadIdx: nat, junctionIdx: nat)
    | ForeignConnectingRoad(junctionIdx: nat, roadIdx: nat)
  {
    /** The text of the `runtime_error`. */
    function Message(m: XodrMap): string
      requires roadIdx < |m.roads| && junctionIdx < |m.junctions|
    {
      var road := m.roads[roadIdx].id;
      var junction := m.junctions[junctionIdx].id;
      match this
      case RoadNotInJunction(_, _) =>
        "The road " + road + " is part of junction " + junction
        + ", but this junction doesn't contain a connection with road " + road + " as connecting road."
      case ForeignConnectingRoad(_, _) =>
        "Junction " + junction + " uses " + road
        + " as a connecting road, but this road doesn't belong to junction " + junction + "."
    }
  }

  /** The indices the checks follow point inside the map. */
  predicate IndicesInRange(m: XodrMap) {
    && (forall r :: 0 <= r < |m.roads| ==> -1 <= m.roads[r].junctionRef.index < |m.junctions|)
    && (forall j, k :: 0 <= j < |m.junctions| && 0 <= k < |m.junctions[j].connections| ==>
          0 <= m.junctions[j].connections[k].connectingRoad.index < |m.roads|)
  }

  /** A linked map satisfies that. */
  lemma LinkedIndicesInRange(m: XodrMap)
    requires XodrMaps.Linked(m)
    ensures IndicesInRange(m)
  {
  }

  /** Road `r` either belongs to no junction or is a connecting road of its junction. */
  predicate RoadInItsJunction(m: XodrMap, r: int)
    requires IndicesInRange(m) && 0 <= r < |m.roads|
  {
    var ji := m.roads[r].junctionRef.index;
    ji == -1 || ContainsRoad(m.junctions[ji], r)
  }

  /** The connecting road of connection `k` of junction `j` names junction `j`. */
  predicate ConnectingRoadBelongs(m: XodrMap, j: int, k: int)
    requires IndicesInRange(m) && 0 <= j < |m.junctions| && 0 <= k < |m.junctions[j].connections|
  {
    m.roads[m.junctions[j].connections[k].connectingRoad.index].junctionRef.index == j
  }

  /** The first road from `from` on that fails the first loop. */
  function FirstRoadOutside(m: XodrMap, from: nat): (r: Option<nat>)
    requires IndicesInRange(m) && from <= |m.roads|
    ensures r.None? <==> forall i :: from <= i < |m.roads| ==> RoadInItsJunction(m, i)
    ensures r.Some? ==> from <= r.value < |m.roads| && !RoadInItsJunction(m, r.value)
                        && forall i :: from <= i < r.value ==> RoadInItsJunction(m, i)
    decreases |m.roads| - from
  {
    if from == |m.roads| then None
    else if !RoadInItsJunction(m, from) then Some(from)
    else FirstRoadOutside(m, from + 1)
  }

  /** The first connection of junction `j`, from `from` on, whose road names another junction. */
  function FirstForeignIn(m: XodrMap, j: nat, from: nat): (r: Option<nat>)
    requires IndicesInRange(m) && j < |m.junctions| && from <= |m.junctions[j].connections|
    ensures r.None? <==> forall k :: from <= k < |m.junctions[j].connections| ==> ConnectingRoadBelongs(m, j, k)
    ensures r.Some? ==> from <= r.value < |m.junctions[j].connections| && !ConnectingRoadBelongs(m, j, r.value)
                        && forall k :: from <= k < r.value ==> ConnectingRoadBelongs(m, j, k)
    decreases |m.junctions[j].connections| - from
  {
    if from == |m.junctions[j].connections| then None
    else if !ConnectingRoadBelongs(m, j, from) then Some(from)
    else FirstForeignIn(m, j, from + 1)
  }

  /** Connection `k` of junction `j` is the first, in junction order and then
      connection order, whose connecting road names another junction. */
  predicate FirstForeignAt(m: XodrMap, j: int, k: int)
    requires IndicesInRange(m) && 0 <= j < |m.junctions| && 0 <= k < |m.junctions[j].connections|
  {
    && !ConnectingRoadBelongs(m, j, k)
    && (forall k' :: 0 <= k' < k ==> ConnectingRoadBelongs(m, j, k'))
    && forall j', k' :: 0 <= j' < j && 0 <= k' < |m.junctions[j'].connections| ==> ConnectingRoadBelongs(m, j', k')
  }

  /** The first junction from `from` on with a foreign connecting road, and that connection. */
  function FirstForeign(m: XodrMap, from: nat): (r: Option<(nat, nat)>)
    requires IndicesInRange(m) && from <= |m.junctions|
    ensures r.None? <==> forall j, k :: from <= j < |m.junctions| && 0 <= k < |m.junctions[j].connections| ==>
                           ConnectingRoadBelongs(m, j, k)
    ensures r.Some? ==> from <= r.value.0 < |m.junctions| && r.value.1 < |m.junctions[r.value.0].connections|
                        && !ConnectingRoadBelongs(m, r.value.0, r.value.1)
                        && (forall k :: 0 <= k < r.value.1 ==> ConnectingRoadBelongs(m, r.value.0, k))
                        && forall j, k :: from <= j < r.value.0 && 0 <= k < |m.junctions[j].connections| ==>
                             ConnectingRoadBelongs(m, j, k)
    decreases |m.junctions| - from
  {
    if from == |m.junctions| then None
    else
      match FirstForeignIn(m, from, 0)
      case Some(k) => Some((from, k))
      case None => FirstForeign(m, from + 1)
  }

  /** `validateJunctionMembership`: the roads first, then the junctions; the first
      failure is thrown. */
  function ValidateJunctionMembership(m: XodrMap): (r: Option<MembershipError>)
    requires IndicesInRange(m)
    ensures r.None? <==> && (forall i :: 0 <= i < |m.roads| ==> RoadInItsJunction(m, i))
                         && (forall j, k :: 0 <= j < |m.junctions| && 0 <= k < |m.junctions[j].connections| ==>
                               ConnectingRoadBelongs(m, j, k))
    ensures r.Some? && r.value.RoadNotInJunction? ==>
              && r.value.roadIdx < |m.roads| && !RoadInItsJunction(m, r.value.roadIdx)
              && r.value.junctionIdx == m.roads[r.value.roadIdx].junctionRef.index
              && forall i :: 0 <= i < r.value.roadIdx ==> RoadInItsJunction(m, i)
    ensures r.Some? && r.value.ForeignConnectingRoad? ==>
              && (forall i :: 0 <= i < |m.roads| ==> RoadInItsJunction(m, i))
              && r.value.junctionIdx < |m.junctions| && r.value.roadIdx < |m.roads|
              && m.roads[r.value.roadIdx].junctionRef.index != r.value.junctionIdx
              && exists k :: 0 <= k < |m.junctions[r.value.junctionIdx].connections|
                             && m.junctions[r.value.junctionIdx].connections[k].connectingRoad.index == r.value.roadIdx
                             && FirstForeignAt(m, r.value.junctionIdx, k)
    ensures r.Some? ==> r.value.roadIdx < |m.roads| && r.value.junctionIdx < |m.junctions|
  {
    match FirstRoadOutside(m, 0)
    case Some(i) => Some(RoadNotInJunction(i, m.roads[i].junctionRef.index))
    case None =>
      match FirstForeign(m, 0)
      case Some((j, k)) => Some(ForeignConnectingRoad(j, m.junctions[j].connections[k].connectingRoad.index))
      case None => None
  }

  /** After a successful check, a road belongs to a junction exactly when it is
      one of the junction's connecting roads. */
  lemma MembershipIsConnection(m: XodrMap, r: int, j: int)
    requires IndicesInRange(m) && ValidateJunctionMembership(m).None?
    requires 0 <= r < |m.roads| && 0 <= j < |m.junctions|
    ensures m.roads[r].junctionRef.index == j <==> ContainsRoad(m.junctions[j], r)
  {
    if ContainsRoad(m.junctions[j], r) {
      var k :| 0 <= k < |m.junctions[j].connections| && m.junctions[j].connections[k].connectingRoad.index == r;
      assert ConnectingRoadBelongs(m, j, k);
    }
    if m.roads[r].junctionRef.index == j {
      assert RoadInItsJunction(m, r);
    }
  }
}
