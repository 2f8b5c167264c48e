/** `XodrMap`: the roads and junctions of a file, the id tables built when
    references are resolved, and the lookups over them. */
module XodrMaps {
  import opened Wrappers
  import opened ParseResults
  import opened ObjectRefs
  import opened RoadLinks
  import Roads
  import Junctions
  import LaneSections
  import MapKeys

  type Road = Roads.Road
  type Junction = Junctions.Junction

  /** `XodrMap`. */
  datatype XodrMap = XodrMap(
    geoReference: Option<string>,
    roads: seq<Road>,
    junctions: seq<Junction>,
    idToIndexMaps: IdToIndexMaps,
    totalNumLanes: int)

  // ---- id tables ----

  /** The table built by inserting `(ids[i], i)` in order, stopping at the
      first id already present (`std::map::insert` fails on it). */
  datatype IdTable = IdTable(table: map<string, nat>, duplicate: Option<nat>)

  predicate Distinct(ids: seq<string>) {
    forall a, b :: 0 <= a < b < |ids| ==> ids[a] != ids[b]
  }

  /** Every key is one of the first `n` ids, and it maps to its position. */
  predicate IndexesPrefix(table: map<string, nat>, ids: seq<string>, n: nat)
    requires n <= |ids|
  {
    && (forall i :: 0 <= i < n ==> ids[i] in table && table[ids[i]] == i)
    && (forall k :: k in table ==> table[k] < n && ids[table[k]] == k)
  }

  function IndexIds(ids: seq<string>): (t: IdTable)
    ensures t.duplicate.None? <==> Distinct(ids)
    ensures t.duplicate.None? ==> IndexesPrefix(t.table, ids, |ids|)
    ensures t.duplicate.Some? ==>
              && t.duplicate.value < |ids|
              && Distinct(ids[..t.duplicate.value])
              && IndexesPrefix(t.table, ids, t.duplicate.value)
              && ids[t.duplicate.value] in t.table
    decreases |ids|
  {
    if |ids| == 0 then IdTable(map[], None)
    else
      var n := |ids| - 1;
      var init := ids[..n];
      var t := IndexIds(init);
      assert forall i :: 0 <= i < n ==> init[i] == ids[i];
      if t.duplicate.Some? then
        assert init[..t.duplicate.value] == ids[..t.duplicate.value];
        assert !Distinct(ids) by {
          var d := t.duplicate.value;
          assert ids[t.table[ids[d]]] == ids[d];
        }
        t
      else if ids[n] in t.table then
        assert init == ids[..n];
        assert ids[t.table[ids[n]]] == ids[n];
        IdTable(t.table, Some(n))
      else
        var r := IdTable(t.table[ids[n] := n], None);
        assert IndexesPrefix(r.table, ids, |ids|);
        r
  }

  function RoadIds(roads: seq<Road>): (ids: seq<string>)
    ensures |ids| == |roads| && forall i :: 0 <= i < |roads| ==> ids[i] == roads[i].id
  {
    seq(|roads|, i requires 0 <= i < |roads| => roads[i].id)
  }

  function JunctionIds(junctions: seq<Junction>): (ids: seq<string>)
    ensures |ids| == |junctions| && forall i :: 0 <= i < |junctions| ==> ids[i] == junctions[i].id
  {
    seq(|junctions|, i requires 0 <= i < |junctions| => junctions[i].id)
  }

  // ---- resolveReferences ----

  function DuplicateRoadError(id: string): (e: XodrParseError)
    ensures e.invalidations == ALL
  {
    XodrParseError(Message("Multiple roads with id '" + id + "' found."), ALL)
  }

  function DuplicateJunctionError(id: string): (e: XodrParseError)
    ensures e.invalidations == ALL
  {
    XodrParseError(Message("Multiple junctions with id '" + id + "' found."), ALL)
  }

  /** The message for a duplicate junction id as written: it names `roads_[i]`,
      where `i` is the junction's position (undefined when there are fewer roads). */
  function DuplicateJunctionMessageAsWritten(roads: seq<Road>, junctions: seq<Junction>, i: nat): (r: Option<string>)
    requires i < |junctions|
    ensures r.Some? <==> i < |roads|
  {
    if i < |roads| then Some("Multiple junctions with id '" + roads[i].id + "' found.") else None
  }

  /** Two junctions sharing the id "J" in a map whose second road is "R" are
      reported as "Multiple junctions with id 'R' found."; with a single road
      the message reads past the end of the road vector. */
  lemma DuplicateJunctionNamesRoad(r0: Road, r1: Road, j: Junction)
    requires r1.id == "R" && j.id == "J"
    ensures IndexIds(JunctionIds([j, j])).duplicate == Some(1)
    ensures DuplicateJunctionMessageAsWritten([r0, r1], [j, j], 1) == Some("Multiple junctions with id 'R' found.")
    ensures DuplicateJunctionMessageAsWritten([r0, r1], [j, j], 1) != Some("Multiple junctions with id '" + j.id + "' found.")
    ensures DuplicateJunctionMessageAsWritten([r0], [j, j], 1).None?
  {
    var ids := JunctionIds([j, j]);
    assert ids[..1] == [j.id];
    assert ids[0] == ids[1];
    assert !Distinct(ids);
    var t := IndexIds(ids);
    assert t.duplicate.value < 2 && Distinct(ids[..t.duplicate.value]);
    assert ("Multiple junctions with id '" + "R" + "' found.")[28] == 'R';
    assert "Multiple junctions with id '" + "R" + "' found." == "Multiple junctions with id 'R' found.";
    assert ("Multiple junctions with id '" + "J" + "' found.")[28] == 'J';
  }

  function RoadConnectionError(id: string, what: string): (e: XodrParseError)
    ensures e.invalidations == CONNECTIVITY
  {
    XodrParseError(Message("Road with id '" + id + "' has invalid connection. " + what), CONNECTIVITY)
  }

  function JunctionConnectionError(id: string, what: string): (e: XodrParseError)
    ensures e.invalidations == CONNECTIVITY
  {
    XodrParseError(Message("Junction with id'" + id + "' has invalid connection. " + what), CONNECTIVITY)
  }

  predicate RoadUnresolved(r: Road) {
    !r.junctionRef.IsResolved() && Unresolved(r.links)
  }

  predicate AllUnresolved(m: XodrMap) {
    && (forall i :: 0 <= i < |m.roads| ==> RoadUnresolved(m.roads[i]))
    && (forall i :: 0 <= i < |m.junctions| ==> Junctions.ConnectionsUnresolved(m.junctions[i]))
  }

  /** Whether `Road::resolveReferences` returns without throwing. */
  predicate RoadResolves(road: Road, maps: IdToIndexMaps) {
    RoadUnresolved(road) && Roads.ResolveReferences(road, maps).Success?
  }

  /** Whether `Junction::resolveReferences` returns without throwing. */
  predicate JunctionResolves(j: Junction, maps: IdToIndexMaps) {
    Junctions.ConnectionsUnresolved(j) && Junctions.ResolveJunction(j, maps).Success?
  }

  /** The number of roads whose resolution throws. */
  function FailingRoads(roads: seq<Road>, maps: IdToIndexMaps): (n: nat)
    ensures n <= |roads|
    decreases |roads|
  {
    if |roads| == 0 then 0
    else
      var k := |roads| - 1;
      FailingRoads(roads[..k], maps) + (if RoadResolves(roads[k], maps) then 0 else 1)
  }

  /** The number of junctions whose resolution throws. */
  function FailingJunctions(junctions: seq<Junction>, maps: IdToIndexMaps): (n: nat)
    ensures n <= |junctions|
    decreases |junctions|
  {
    if |junctions| == 0 then 0
    else
      var k := |junctions| - 1;
      FailingJunctions(junctions[..k], maps) + (if JunctionResolves(junctions[k], maps) then 0 else 1)
  }

  /** No error is recorded exactly when every road resolves. */
  lemma {:induction false} NoFailingRoads(roads: seq<Road>, maps: IdToIndexMaps)
    ensures FailingRoads(roads, maps) == 0 <==> forall i :: 0 <= i < |roads| ==> RoadResolves(roads[i], maps)
    decreases |roads|
  {
    if |roads| > 0 {
      var k := |roads| - 1;
      NoFailingRoads(roads[..k], maps);
      assert forall i :: 0 <= i < k ==> roads[..k][i] == roads[i];
    }
  }

  /** No error is recorded exactly when every junction resolves. */
  lemma {:induction false} NoFailingJunctions(junctions: seq<Junction>, maps: IdToIndexMaps)
    ensures FailingJunctions(junctions, maps) == 0 <==> forall i :: 0 <= i < |junctions| ==> JunctionResolves(junctions[i], maps)
    decreases |junctions|
  {
    if |junctions| > 0 {
      var k := |junctions| - 1;
      NoFailingJunctions(junctions[..k], maps);
      assert forall i :: 0 <= i < k ==> junctions[..k][i] == junctions[i];
    }
  }

  /** A road after `Road::resolveReferences`: unchanged when it throws. */
  function ResolvedRoad(road: Road, maps: IdToIndexMaps): (r: Road)
    requires RoadUnresolved(road)
    ensures r.id == road.id && r.laneSections == road.laneSections && r.roadObjects == road.roadObjects
  {
    match Roads.ResolveReferences(road, maps)
    case Success(resolved) => resolved
    case Failure(_) => road
  }

  /** The error `resolveReferences` records for a road whose resolution throws. */
  function RoadErrors(road: Road, maps: IdToIndexMaps): (errs: seq<XodrParseError>)
    requires RoadUnresolved(road)
    ensures |errs| == (if RoadResolves(road, maps) then 0 else 1)
    ensures forall k :: 0 <= k < |errs| ==> errs[k].invalidations == CONNECTIVITY
  {
    match Roads.ResolveReferences(road, maps)
    case Success(_) => []
    case Failure(e) => [RoadConnectionError(road.id, e)]
  }

  /** Resolves every road; a road whose resolution throws keeps its unresolved
      references and contributes one `CONNECTIVITY` error, and the loop goes on. */
  function ResolveRoads(roads: seq<Road>, maps: IdToIndexMaps): (r: (seq<Road>, seq<XodrParseError>))
    requires forall i :: 0 <= i < |roads| ==> RoadUnresolved(roads[i])
    ensures |r.0| == |roads|
    ensures forall i :: 0 <= i < |roads| ==> r.0[i] == ResolvedRoad(roads[i], maps)
    ensures |r.1| == FailingRoads(roads, maps)
    ensures forall k :: 0 <= k < |r.1| ==> r.1[k].invalidations == CONNECTIVITY
    decreases |roads|
  {
    if |roads| == 0 then ([], [])
    else
      var n := |roads| - 1;
      assert forall i :: 0 <= i < n ==> roads[..n][i] == roads[i];
      var prev := ResolveRoads(roads[..n], maps);
      (prev.0 + [ResolvedRoad(roads[n], maps)], prev.1 + RoadErrors(roads[n], maps))
  }

  /** A junction after `Junction::resolveReferences`. */
  function ResolvedJunction(j: Junction, maps: IdToIndexMaps): (r: Junction)
    requires Junctions.ConnectionsUnresolved(j)
    ensures r.id == j.id && |r.connections| == |j.connections|
  {
    match Junctions.ResolveJunction(j, maps)
    case Success(resolved) => resolved
    case Failure(_) => j
  }

  /** The error recorded for a junction whose resolution throws. */
  function JunctionErrors(j: Junction, maps: IdToIndexMaps): (errs: seq<XodrParseError>)
    requires Junctions.ConnectionsUnresolved(j)
    ensures |errs| == (if JunctionResolves(j, maps) then 0 else 1)
    ensures forall k :: 0 <= k < |errs| ==> errs[k].invalidations == CONNECTIVITY
  {
    match Junctions.ResolveJunction(j, maps)
    case Success(_) => []
    case Failure(e) => [JunctionConnectionError(j.id, e)]
  }

  /** The same for junctions. */
  function ResolveJunctions(junctions: seq<Junction>, maps: IdToIndexMaps): (r: (seq<Junction>, seq<XodrParseError>))
    requires forall i :: 0 <= i < |junctions| ==> Junctions.ConnectionsUnresolved(junctions[i])
    ensures |r.0| == |junctions|
    ensures forall i :: 0 <= i < |junctions| ==> r.0[i] == ResolvedJunction(junctions[i], maps)
    ensures |r.1| == FailingJunctions(junctions, maps)
    ensures forall k :: 0 <= k < |r.1| ==> r.1[k].invalidations == CONNECTIVITY
    decreases |junctions|
  {
    if |junctions| == 0 then ([], [])
    else
      var n := |junctions| - 1;
      assert forall i :: 0 <= i < n ==> junctions[..n][i] == junctions[i];
      var prev := ResolveJunctions(junctions[..n], maps);
      (prev.0 + [ResolvedJunction(junctions[n], maps)], prev.1 + JunctionErrors(junctions[n], maps))
  }

  /** `XodrMap::resolveReferences` (with the duplicate-junction message naming the junction). */
  function ResolveReferences(m: XodrMap): (r: (XodrMap, seq<XodrParseError>))
    requires m.idToIndexMaps.roadIdToIndex == map[] && m.idToIndexMaps.junctionIdToIndex == map[]
    requires AllUnresolved(m)
    ensures r.0.geoReference == m.geoReference && r.0.totalNumLanes == m.totalNumLanes
    ensures |r.0.roads| == |m.roads| && |r.0.junctions| == |m.junctions|
    ensures !Distinct(RoadIds(m.roads)) ==>
              r.0.roads == m.roads && r.0.junctions == m.junctions
              && |r.1| == 1 && r.1[0] == DuplicateRoadError(m.roads[IndexIds(RoadIds(m.roads)).duplicate.value].id)
    ensures Distinct(RoadIds(m.roads)) && !Distinct(JunctionIds(m.junctions)) ==>
              r.0.roads == m.roads && r.0.junctions == m.junctions
              && |r.1| == 1
              && r.1[0] == DuplicateJunctionError(m.junctions[IndexIds(JunctionIds(m.junctions)).duplicate.value].id)
    ensures Distinct(RoadIds(m.roads)) && Distinct(JunctionIds(m.junctions)) ==>
              && IndexesPrefix(r.0.idToIndexMaps.roadIdToIndex, RoadIds(m.roads), |m.roads|)
              && IndexesPrefix(r.0.idToIndexMaps.junctionIdToIndex, JunctionIds(m.junctions), |m.junctions|)
              && r.0.roads == ResolveRoads(m.roads, r.0.idToIndexMaps).0
              && r.0.junctions == ResolveJunctions(m.junctions, r.0.idToIndexMaps).0
              && r.1 == ResolveRoads(m.roads, r.0.idToIndexMaps).1 + ResolveJunctions(m.junctions, r.0.idToIndexMaps).1
  {
    var rt := IndexIds(RoadIds(m.roads));
    if rt.duplicate.Some? then
      (m.(idToIndexMaps := IdToIndexMaps(rt.table, map[])), [DuplicateRoadError(m.roads[rt.duplicate.value].id)])
    else
      var jt := IndexIds(JunctionIds(m.junctions));
      if jt.duplicate.Some? then
        (m.(idToIndexMaps := IdToIndexMaps(rt.table, jt.table)),
         [DuplicateJunctionError(m.junctions[jt.duplicate.value].id)])
      else
        var maps := IdToIndexMaps(rt.table, jt.table);
        var roads := ResolveRoads(m.roads, maps);
        var junctions := ResolveJunctions(m.junctions, maps);
        (m.(roads := roads.0, junctions := junctions.0, idToIndexMaps := maps), roads.1 + junctions.1)
  }

  /** Resolution keeps the geometry valid: its errors invalidate at most connectivity,
      unless an id is duplicated. */
  lemma ResolutionKeepsGeometry(m: XodrMap)
    requires m.idToIndexMaps.roadIdToIndex == map[] && m.idToIndexMaps.junctionIdToIndex == map[]
    requires AllUnresolved(m)
    requires Distinct(RoadIds(m.roads)) && Distinct(JunctionIds(m.junctions))
    ensures HasValidGeometry(ResolveReferences(m).1)
  {
    var r := ResolveReferences(m);
    var maps := r.0.idToIndexMaps;
    var a := ResolveRoads(m.roads, maps).1;
    var b := ResolveJunctions(m.junctions, maps).1;
    assert r.1 == a + b;
    ConnectivityErrorsKeepGeometry(a);
    ConnectivityErrorsKeepGeometry(b);
    ValidityAppend(a, b);
  }

  lemma ConnectivityErrorsKeepGeometry(errs: seq<XodrParseError>)
    requires forall k :: 0 <= k < |errs| ==> errs[k].invalidations == CONNECTIVITY
    ensures HasValidGeometry(errs)
  {
    InvalidationBits();
  }

  /** The map's tables point into its road and junction vectors. */
  predicate TablesInRange(m: XodrMap) {
    && (forall k :: k in m.idToIndexMaps.roadIdToIndex ==> m.idToIndexMaps.roadIdToIndex[k] < |m.roads|)
    && (forall k :: k in m.idToIndexMaps.junctionIdToIndex ==> m.idToIndexMaps.junctionIdToIndex[k] < |m.junctions|)
  }

  lemma ResolvedTablesInRange(m: XodrMap)
    requires m.idToIndexMaps.roadIdToIndex == map[] && m.idToIndexMaps.junctionIdToIndex == map[]
    requires AllUnresolved(m)
    requires Distinct(RoadIds(m.roads)) && Distinct(JunctionIds(m.junctions))
    ensures TablesInRange(ResolveReferences(m).0)
  {
  }

  // ---- lookups ----

  /** `roadIndexById`: -1 when the id is not in the table. */
  function RoadIndexById(m: XodrMap, id: string): (i: int)
    ensures i == -1 <==> id !in m.idToIndexMaps.roadIdToIndex
    ensures i != -1 ==> i == m.idToIndexMaps.roadIdToIndex[id]
  {
    if id in m.idToIndexMaps.roadIdToIndex then m.idToIndexMaps.roadIdToIndex[id] else -1
  }

  /** `junctionIndexById`. */
  function JunctionIndexById(m: XodrMap, id: string): (i: int)
    ensures i == -1 <==> id !in m.idToIndexMaps.junctionIdToIndex
    ensures i != -1 ==> i == m.idToIndexMaps.junctionIdToIndex[id]
  {
    if id in m.idToIndexMaps.junctionIdToIndex then m.idToIndexMaps.junctionIdToIndex[id] else -1
  }

  /** `roadById`: `nullptr` is `None`. */
  function RoadById(m: XodrMap, id: string): (r: Option<Road>)
    requires TablesInRange(m)
    ensures r.None? <==> RoadIndexById(m, id) == -1
    ensures r.Some? ==> r.value == m.roads[RoadIndexById(m, id)]
  {
    if id in m.idToIndexMaps.roadIdToIndex then Some(m.roads[m.idToIndexMaps.roadIdToIndex[id]]) else None
  }

  /** `junctionById`. */
  function JunctionById(m: XodrMap, id: string): (r: Option<Junction>)
    requires TablesInRange(m)
    ensures r.None? <==> JunctionIndexById(m, id) == -1
    ensures r.Some? ==> r.value == m.junctions[JunctionIndexById(m, id)]
  {
    if id in m.idToIndexMaps.junctionIdToIndex then Some(m.junctions[m.idToIndexMaps.junctionIdToIndex[id]]) else None
  }

  /** After resolution with distinct ids, each road is found under its id at
      its own position, and an id no road has is not found. */
  lemma LookupAfterResolve(m: XodrMap, i: nat, id: string)
    requires m.idToIndexMaps.roadIdToIndex == map[] && m.idToIndexMaps.junctionIdToIndex == map[]
    requires AllUnresolved(m)
    requires Distinct(RoadIds(m.roads)) && Distinct(JunctionIds(m.junctions))
    ensures var r := ResolveReferences(m).0;
            && (i < |m.roads| ==> RoadIndexById(r, m.roads[i].id) == i)
            && (i < |m.junctions| ==> JunctionIndexById(r, m.junctions[i].id) == i)
            && ((forall k :: 0 <= k < |m.roads| ==> m.roads[k].id != id) ==> RoadIndexById(r, id) == -1)
  {
    var r := ResolveReferences(m).0;
    var ids := RoadIds(m.roads);
    if id in r.idToIndexMaps.roadIdToIndex {
      assert ids[r.idToIndexMaps.roadIdToIndex[id]] == id;
    }
  }

  /** `hasRoadObjects`: a scan over the roads. */
  method HasRoadObjects(m: XodrMap) returns (found: bool)
    ensures found <==> exists i :: 0 <= i < |m.roads| && |m.roads[i].roadObjects| > 0
  {
    var i := 0;
    while i < |m.roads|
      invariant 0 <= i <= |m.roads|
      invariant forall k :: 0 <= k < i ==> |m.roads[k].roadObjects| == 0
    {
      if |m.roads[i].roadObjects| > 0 {
        return true;
      }
      i := i + 1;
    }
    return false;
  }

  // ---- the state the validators assume ----

  /** A road link points at an existing road (with a contact point) or junction. */
  predicate LinkInRange(m: XodrMap, l: RoadLink) {
    && (l.elementType == ElementType.Road ==>
          0 <= l.elementRef.index < |m.roads| && l.contactPoint != ContactPoint.NotSpecified)
    && (l.elementType == ElementType.Junction ==> 0 <= l.elementRef.index < |m.junctions|)
  }

  /** The map after successful parsing and resolution, as the validators use it:
      every road has lane sections with a consistent left-lane count, every
      reference is resolved to an existing element, and every connection names
      a contact point. */
  predicate Linked(m: XodrMap) {
    && (forall r :: 0 <= r < |m.roads| ==>
          && |m.roads[r].laneSections| > 0
          && (forall s :: 0 <= s < |m.roads[r].laneSections| ==> m.roads[r].laneSections[s].LeftCountInRange())
          && -1 <= m.roads[r].junctionRef.index < |m.junctions|
          && LinkInRange(m, m.roads[r].links.predecessor)
          && LinkInRange(m, m.roads[r].links.successor))
    && (forall j :: 0 <= j < |m.junctions| ==>
          forall k :: 0 <= k < |m.junctions[j].connections| ==>
            && 0 <= m.junctions[j].connections[k].incomingRoad.index < |m.roads|
            && 0 <= m.junctions[j].connections[k].connectingRoad.index < |m.roads|
            && m.junctions[j].connections[k].contactPoint != ContactPoint.NotSpecified)
  }

  /** `laneSectionByKey`. */
  function LaneSectionByKey(m: XodrMap, key: MapKeys.LaneSectionKey): (sec: LaneSections.LaneSection)
    requires 0 <= key.roadIdx < |m.roads| && 0 <= key.laneSectionIdx < |m.roads[key.roadIdx].laneSections|
    ensures sec in m.roads[key.roadIdx].laneSections
    ensures sec == m.roads[key.roadIdx].laneSections[key.laneSectionIdx]
  {
    m.roads[key.roadIdx].laneSections[key.laneSectionIdx]
  }

  /** The end of `XodrMap::parseXml`: resolve, append the resolution errors,
      and record how many global lane indices the reader handed out. */
  function FinishMap(parsed: ParseResult<XodrMap>, reader: Reader): (r: ParseResult<XodrMap>)
    requires parsed.value.idToIndexMaps.roadIdToIndex == map[] && parsed.value.idToIndexMaps.junctionIdToIndex == map[]
    requires AllUnresolved(parsed.value)
    ensures r.value.totalNumLanes == reader.nextGlobalLaneIndex
    ensures |r.errors| >= |parsed.errors| && r.errors[..|parsed.errors|] == parsed.errors
    ensures r.value.roads == ResolveReferences(parsed.value).0.roads
  {
    var res := ResolveReferences(parsed.value);
    ParseResult(res.0.(totalNumLanes := PeekNextGlobalLaneIndex(reader)), parsed.errors + res.1)
  }
}
