/** `forEachRoadLink` (`xodr_utils_impl.h`): the road-to-road connections of a
    map, each reported once, as the sequence of callback invocations it makes. */
module RoadLinkEnumeration {
  import opened Wrappers
  import opened ObjectRefs
  import opened RoadLinks
  import opened MapKeys
  import Junctions
  import Roads
  import XodrMaps

  type XodrMap = XodrMaps.XodrMap

  /** One callback invocation: `roadRoadF(from, to)` or `junctionRoadF(from, to, connection)`. */
  datatype LinkEvent =
    | RoadRoad(from: RoadContactPointKey, to: RoadContactPointKey)
    | JunctionRoad(from: RoadContactPointKey, to: RoadContactPointKey, connection: Junctions.Connection)

  /** `road.junctionRef().hasValue()` on a resolved reference. */
  predicate InJunction(road: Roads.Road) {
    road.junctionRef.index != NULL_VALUE
  }

  /** The key of the end of road `r` that link `t` leaves from. */
  function FromKey(r: int, t: RoadLinkType): (k: RoadContactPointKey)
    ensures k.roadIdx == r && k.contactPoint != ContactPoint.NotSpecified
    ensures LinkTypeForContactPoint(k.contactPoint) == t
  {
    RoadContactPointKey(r, ContactPointForLinkType(t))
  }

  /** The connections of a junction whose incoming road is `roadIdx`, in order, each
      reported with the contact point the connection names on its connecting road. */
  function JunctionEvents(conns: seq<Junctions.Connection>, roadIdx: int, fromKey: RoadContactPointKey)
    : (evs: seq<LinkEvent>)
    ensures |evs| <= |conns|
    ensures forall e :: e in evs ==>
              && e.JunctionRoad? && e.from == fromKey && e.connection in conns
              && e.connection.incomingRoad.index == roadIdx
              && e.to == RoadContactPointKey(e.connection.connectingRoad.index, e.connection.contactPoint)
    ensures forall c :: c in conns && c.incomingRoad.index == roadIdx ==>
              JunctionRoad(fromKey, RoadContactPointKey(c.connectingRoad.index, c.contactPoint), c) in evs
    decreases |conns|
  {
    if |conns| == 0 then []
    else
      var n := |conns| - 1;
      var c := conns[n];
      var prev := JunctionEvents(conns[..n], roadIdx, fromKey);
      assert forall d :: d in conns ==> d in conns[..n] || d == c;
      if c.incomingRoad.index == roadIdx
      then prev + [JunctionRoad(fromKey, RoadContactPointKey(c.connectingRoad.index, c.contactPoint), c)]
      else prev
  }

  /** The junction branch as written: the to-key's contact point is read with
      `roadLink.contactPoint()`, which asserts a road link, on a link to a junction.
      `None` stands for that failed assertion. */
  function JunctionEventsAsWritten(conns: seq<Junctions.Connection>, roadIdx: int,
                                   fromKey: RoadContactPointKey, link: RoadLink)
    : (evs: Option<seq<LinkEvent>>)
    ensures evs.Some? && link.elementType == ElementType.Road ==>
              forall e :: e in evs.value ==> e.JunctionRoad? && e.to.contactPoint == link.contactPoint
    decreases |conns|
  {
    if |conns| == 0 then Some([])
    else
      var n := |conns| - 1;
      var c := conns[n];
      match JunctionEventsAsWritten(conns[..n], roadIdx, fromKey, link)
      case None => None
      case Some(prev) =>
        if c.incomingRoad.index != roadIdx then Some(prev)
        else if link.elementType != ElementType.Road then None
        else Some(prev + [JunctionRoad(fromKey, RoadContactPointKey(c.connectingRoad.index, ContactPointOf(link)), c)])
  }

  /** On a junction link, the branch as written fails exactly when some connection
      has the road as its incoming road, and otherwise reports nothing, as the
      corrected branch does. */
  lemma {:induction false} AsWrittenFailsOnAnyMatch(conns: seq<Junctions.Connection>, roadIdx: int,
                                                    fromKey: RoadContactPointKey, link: RoadLink)
    requires link.elementType == ElementType.Junction
    ensures JunctionEventsAsWritten(conns, roadIdx, fromKey, link).None?
            <==> exists k :: 0 <= k < |conns| && conns[k].incomingRoad.index == roadIdx
    ensures JunctionEventsAsWritten(conns, roadIdx, fromKey, link).Some? ==>
              JunctionEventsAsWritten(conns, roadIdx, fromKey, link).value == []
              && JunctionEvents(conns, roadIdx, fromKey) == []
    decreases |conns|
  {
    if |conns| > 0 {
      var n := |conns| - 1;
      AsWrittenFailsOnAnyMatch(conns[..n], roadIdx, fromKey, link);
      assert forall k :: 0 <= k < n ==> conns[..n][k] == conns[k];
      if JunctionEventsAsWritten(conns, roadIdx, fromKey, link).Some? {
        assert JunctionEvents(conns[..n], roadIdx, fromKey) == [];
      }
    }
  }

  /** A connecting road that continues, through a second junction, onto another
      connecting road: the branch as written fails, the corrected one reports the
      connection with the contact point the connection names. */
  lemma ConnectingRoadIntoJunction()
    ensures var c := Junctions.Connection("0", ObjectRef("1", 1), ObjectRef("2", 2), ContactPoint.Start, []);
            var link := MakeJunctionLink(ObjectRef("7", 1));
            var from := FromKey(1, Successor);
            && JunctionEventsAsWritten([c], 1, from, link).None?
            && JunctionEvents([c], 1, from) == [JunctionRoad(from, RoadContactPointKey(2, ContactPoint.Start), c)]
  {
    var c := Junctions.Connection("0", ObjectRef("1", 1), ObjectRef("2", 2), ContactPoint.Start, []);
    var from := FromKey(1, Successor);
    assert [c][..0] == [];
  }

  /** The invocations for link `t` of road `r`. */
  function LinkEvents(m: XodrMap, r: nat, t: RoadLinkType): (evs: seq<LinkEvent>)
    requires XodrMaps.Linked(m) && r < |m.roads|
    ensures forall e :: e in evs ==> e.from == FromKey(r, t)
    ensures Roads.RoadLinkOf(m.roads[r], t).elementType == ElementType.NotSpecified ==> evs == []
    ensures Roads.RoadLinkOf(m.roads[r], t).elementType == ElementType.Road ==>
              var l := Roads.RoadLinkOf(m.roads[r], t);
              evs == if InJunction(m.roads[r]) || r < l.elementRef.index
                     then [RoadRoad(FromKey(r, t), RoadContactPointKey(l.elementRef.index, l.contactPoint))]
                     else []
    ensures Roads.RoadLinkOf(m.roads[r], t).elementType == ElementType.Junction ==>
              (forall e :: e in evs ==> e.JunctionRoad?)
              && (!InJunction(m.roads[r]) ==> evs == [])
  {
    var road := m.roads[r];
    var link := Roads.RoadLinkOf(road, t);
    match link.elementType
    case NotSpecified => []
    case Road =>
      var other := ElementRefOf(link).index;
      if InJunction(road) || r < other
      then [RoadRoad(FromKey(r, t), RoadContactPointKey(other, ContactPointOf(link)))]
      else []
    case Junction =>
      if InJunction(road)
      then JunctionEvents(m.junctions[ElementRefOf(link).index].connections, r, FromKey(r, t))
      else []
  }

  /** The invocations for road `r`: its predecessor link, then its successor link. */
  function RoadEvents(m: XodrMap, r: nat): (evs: seq<LinkEvent>)
    requires XodrMaps.Linked(m) && r < |m.roads|
    ensures forall e :: e in evs ==> e.from.roadIdx == r
  {
    LinkEvents(m, r, Predecessor) + LinkEvents(m, r, Successor)
  }

  /** The invocations of every road, road by road. */
  function EventTable(m: XodrMap): (parts: seq<seq<LinkEvent>>)
    requires XodrMaps.Linked(m)
    ensures |parts| == |m.roads|
    ensures forall r :: 0 <= r < |m.roads| ==> parts[r] == RoadEvents(m, r)
  {
    seq(|m.roads|, r requires 0 <= r < |m.roads| => RoadEvents(m, r))
  }

  /** The parts one after the other. */
  function Concat(parts: seq<seq<LinkEvent>>): (evs: seq<LinkEvent>)
    decreases |parts|
  {
    if parts == [] then [] else Concat(parts[..|parts| - 1]) + parts[|parts| - 1]
  }

  lemma {:induction false} ConcatContains(parts: seq<seq<LinkEvent>>, r: nat, e: LinkEvent)
    requires r < |parts| && e in parts[r]
    ensures e in Concat(parts)
    decreases |parts|
  {
    var k := |parts| - 1;
    if r < k {
      ConcatContains(parts[..k], r, e);
      assert parts[..k][r] == parts[r];
    }
  }

  lemma {:induction false} ConcatMembers(parts: seq<seq<LinkEvent>>, e: LinkEvent)
    requires e in Concat(parts)
    ensures exists r :: 0 <= r < |parts| && e in parts[r]
    decreases |parts|
  {
    var k := |parts| - 1;
    if e !in parts[k] {
      ConcatMembers(parts[..k], e);
      var r :| 0 <= r < k && e in parts[..k][r];
      assert parts[..k][r] == parts[r];
    }
  }

  /** The invocations for roads `[0, n)`. */
  function Enumerate(m: XodrMap, n: nat): (evs: seq<LinkEvent>)
    requires XodrMaps.Linked(m) && n <= |m.roads|
    ensures n == 0 ==> evs == []
    ensures forall e :: e in evs ==> 0 <= e.from.roadIdx < n
  {
    var parts := EventTable(m)[..n];
    var evs := Concat(parts);
    assert forall e :: e in evs ==> 0 <= e.from.roadIdx < n by {
      forall e | e in evs ensures 0 <= e.from.roadIdx < n {
        ConcatMembers(parts, e);
        var r :| 0 <= r < |parts| && e in parts[r];
        assert parts[r] == RoadEvents(m, r);
      }
    }
    evs
  }

  /** `forEachRoadLink(map, roadRoadF, junctionRoadF)`. */
  function ForEachRoadLink(m: XodrMap): (evs: seq<LinkEvent>)
    requires XodrMaps.Linked(m)
    ensures forall e :: e in evs ==> 0 <= e.from.roadIdx < |m.roads|
  {
    Enumerate(m, |m.roads|)
  }

  /** `forEachRoadLink(map, f)`: both kinds of invocation reach `f`, without the connection. */
  function KeyPairs(evs: seq<LinkEvent>): (ps: seq<(RoadContactPointKey, RoadContactPointKey)>)
    ensures |ps| == |evs|
    ensures forall i :: 0 <= i < |evs| ==> ps[i] == (evs[i].from, evs[i].to)
  {
    seq(|evs|, i requires 0 <= i < |evs| => (evs[i].from, evs[i].to))
  }

  /** An invocation, of either callback, for the unordered pair of ends `{a, b}`:
      the single-callback overload hands both kinds to the same `f`. */
  predicate Reports(e: LinkEvent, a: RoadContactPointKey, b: RoadContactPointKey) {
    (e.from == a && e.to == b) || (e.from == b && e.to == a)
  }

  /** How many invocations report the pair `{a, b}`. */
  function Count(evs: seq<LinkEvent>, a: RoadContactPointKey, b: RoadContactPointKey): (n: nat)
    ensures n <= |evs|
    ensures n == 0 <==> forall e :: e in evs ==> !Reports(e, a, b)
    decreases |evs|
  {
    if |evs| == 0 then 0
    else (if Reports(evs[0], a, b) then 1 else 0) + Count(evs[1..], a, b)
  }

  lemma {:induction false} CountAppend(x: seq<LinkEvent>, y: seq<LinkEvent>, a: RoadContactPointKey, b: RoadContactPointKey)
    ensures Count(x + y, a, b) == Count(x, a, b) + Count(y, a, b)
    decreases |x|
  {
    if |x| == 0 {
      assert x + y == y;
    } else {
      assert (x + y)[1..] == x[1..] + y;
      CountAppend(x[1..], y, a, b);
    }
  }

  /** Two roads outside junctions whose links name each other's ends. */
  predicate MutuallyLinked(m: XodrMap, a: nat, t: RoadLinkType, b: nat, cpb: ContactPoint)
    requires XodrMaps.Linked(m)
  {
    && a < |m.roads| && b < |m.roads| && a != b && cpb != ContactPoint.NotSpecified
    && !InJunction(m.roads[a]) && !InJunction(m.roads[b])
    && Roads.RoadLinkOf(m.roads[a], t) == RoadLink(ElementType.Road, Roads.RoadLinkOf(m.roads[a], t).elementRef, cpb)
    && Roads.RoadLinkOf(m.roads[a], t).elementRef.index == b
    && var back := Roads.RoadLinkOf(m.roads[b], LinkTypeForContactPoint(cpb));
       back.elementType == ElementType.Road && back.elementRef.index == a
       && back.contactPoint == ContactPointForLinkType(t)
  }

  /** A link leaving from neither key reports nothing for the pair. */
  lemma CountOtherLink(m: XodrMap, r: nat, u: RoadLinkType, ka: RoadContactPointKey, kb: RoadContactPointKey)
    requires XodrMaps.Linked(m) && r < |m.roads|
    requires FromKey(r, u) != ka && FromKey(r, u) != kb
    ensures Count(LinkEvents(m, r, u), ka, kb) == 0
  {
    var evs := LinkEvents(m, r, u);
    forall e | e in evs ensures !Reports(e, ka, kb) {
      assert e.from == FromKey(r, u);
    }
  }

  /** The link of road `a` reports the pair once when `a` is the lower index. */
  lemma CountFromA(m: XodrMap, a: nat, t: RoadLinkType, b: nat, cpb: ContactPoint)
    requires XodrMaps.Linked(m) && MutuallyLinked(m, a, t, b, cpb)
    ensures Count(LinkEvents(m, a, t), FromKey(a, t), RoadContactPointKey(b, cpb)) == if a < b then 1 else 0
  {
    var ka := FromKey(a, t);
    var kb := RoadContactPointKey(b, cpb);
    assert LinkEvents(m, a, t) == if a < b then [RoadRoad(ka, kb)] else [];
  }

  /** The link back from road `b` reports the pair once when `b` is the lower index. */
  lemma CountFromB(m: XodrMap, a: nat, t: RoadLinkType, b: nat, cpb: ContactPoint)
    requires XodrMaps.Linked(m) && MutuallyLinked(m, a, t, b, cpb)
    ensures Count(LinkEvents(m, b, LinkTypeForContactPoint(cpb)), FromKey(a, t), RoadContactPointKey(b, cpb))
            == if b < a then 1 else 0
  {
    var ka := FromKey(a, t);
    var kb := RoadContactPointKey(b, cpb);
    var tb := LinkTypeForContactPoint(cpb);
    LinkTypeContactPointInverse(cpb, t);
    assert FromKey(b, tb) == kb;
    assert LinkEvents(m, b, tb) == if b < a then [RoadRoad(kb, ka)] else [];
  }

  /** Within one road, only the link that leaves from one of the two ends can report the pair. */
  lemma CountRoad(m: XodrMap, a: nat, t: RoadLinkType, b: nat, cpb: ContactPoint, r: nat)
    requires XodrMaps.Linked(m) && MutuallyLinked(m, a, t, b, cpb) && r < |m.roads|
    ensures Count(RoadEvents(m, r), FromKey(a, t), RoadContactPointKey(b, cpb))
            == (if r == a && a < b then 1 else 0) + (if r == b && b < a then 1 else 0)
  {
    var ka := FromKey(a, t);
    var kb := RoadContactPointKey(b, cpb);
    var tb := LinkTypeForContactPoint(cpb);
    CountAppend(LinkEvents(m, r, Predecessor), LinkEvents(m, r, Successor), ka, kb);
    LinkTypeContactPointInverse(cpb, t);
    forall u: RoadLinkType
      ensures Count(LinkEvents(m, r, u), ka, kb)
              == (if r == a && u == t && a < b then 1 else 0) + (if r == b && u == tb && b < a then 1 else 0)
    {
      if r == a && u == t {
        CountFromA(m, a, t, b, cpb);
      } else if r == b && u == tb {
        CountFromB(m, a, t, b, cpb);
      } else {
        CountOtherLink(m, r, u, ka, kb);
      }
    }
  }

  /** How many of roads `[0, n)` report the pair of ends of roads `a` and `b`. */
  function ReportersBelow(a: nat, b: nat, n: nat): nat {
    (if a < n && a < b then 1 else 0) + (if b < n && b < a then 1 else 0)
  }

  /** When each part alone reports the pair once if its index is the lower of `a`
      and `b` and otherwise not, the parts together report it `ReportersBelow` times. */
  lemma {:induction false} CountConcat(parts: seq<seq<LinkEvent>>, ka: RoadContactPointKey, kb: RoadContactPointKey,
                                       a: nat, b: nat)
    requires forall r :: 0 <= r < |parts| ==>
               Count(parts[r], ka, kb) == (if r == a && a < b then 1 else 0) + (if r == b && b < a then 1 else 0)
    ensures Count(Concat(parts), ka, kb) == ReportersBelow(a, b, |parts|)
    decreases |parts|
  {
    if |parts| > 0 {
      var k := |parts| - 1;
      assert forall r :: 0 <= r < k ==> parts[..k][r] == parts[r];
      CountConcat(parts[..k], ka, kb, a, b);
      CountAppend(Concat(parts[..k]), parts[k], ka, kb);
    }
  }

  /** Two roads outside junctions that link to each other are reported exactly once,
      from the road with the lower index. */
  lemma MutualLinkReportedOnce(m: XodrMap, a: nat, t: RoadLinkType, b: nat, cpb: ContactPoint)
    requires XodrMaps.Linked(m) && MutuallyLinked(m, a, t, b, cpb)
    ensures Count(ForEachRoadLink(m), FromKey(a, t), RoadContactPointKey(b, cpb)) == 1
  {
    var ka := FromKey(a, t);
    var kb := RoadContactPointKey(b, cpb);
    var parts := EventTable(m)[..|m.roads|];
    forall r | 0 <= r < |parts|
      ensures Count(parts[r], ka, kb) == (if r == a && a < b then 1 else 0) + (if r == b && b < a then 1 else 0)
    {
      CountRoad(m, a, t, b, cpb, r);
    }
    CountConcat(parts, ka, kb, a, b);
  }

  /** A road inside a junction reports every road it links to, whatever the indices. */
  lemma JunctionRoadReportsItsLinks(m: XodrMap, r: nat, t: RoadLinkType)
    requires XodrMaps.Linked(m) && r < |m.roads| && InJunction(m.roads[r])
    requires Roads.RoadLinkOf(m.roads[r], t).elementType == ElementType.Road
    ensures var l := Roads.RoadLinkOf(m.roads[r], t);
            RoadRoad(FromKey(r, t), RoadContactPointKey(l.elementRef.index, l.contactPoint)) in ForEachRoadLink(m)
  {
    var l := Roads.RoadLinkOf(m.roads[r], t);
    var e := RoadRoad(FromKey(r, t), RoadContactPointKey(l.elementRef.index, l.contactPoint));
    assert e in RoadEvents(m, r);
    EnumerateContainsRoad(m, |m.roads|, r, e);
  }

  /** The link of road `s` at end `ts` does not lead back to road `r`: neither a
      road link naming `r` nor, from inside a junction, a junction link whose
      junction connects `s` onto `r`. */
  predicate NoLinkBack(m: XodrMap, s: nat, ts: RoadLinkType, r: nat)
    requires XodrMaps.Linked(m) && s < |m.roads|
  {
    var l := Roads.RoadLinkOf(m.roads[s], ts);
    && (l.elementType == ElementType.Road ==> l.elementRef.index != r)
    && (l.elementType == ElementType.Junction && InJunction(m.roads[s]) ==>
          forall c :: c in m.junctions[l.elementRef.index].connections ==>
            c.incomingRoad.index != s || c.connectingRoad.index != r)
  }

  /** A link that does not lead back to road `r` reports no pair with an end of `r`. */
  lemma NoLinkBackCount(m: XodrMap, s: nat, ts: RoadLinkType, r: nat, ka: RoadContactPointKey, kb: RoadContactPointKey)
    requires XodrMaps.Linked(m) && s < |m.roads| && NoLinkBack(m, s, ts, r)
    requires FromKey(s, ts) == kb && ka.roadIdx == r
    ensures Count(LinkEvents(m, s, ts), ka, kb) == 0
  {
    var l := Roads.RoadLinkOf(m.roads[s], ts);
    forall e | e in LinkEvents(m, s, ts) ensures e.to.roadIdx != r {
      if l.elementType == ElementType.Junction {
        assert e in JunctionEvents(m.junctions[l.elementRef.index].connections, s, FromKey(s, ts));
      }
    }
  }

  /** A connection of a junction whose incoming road is `r` and which leads onto the end `kb`. */
  predicate ConnectsTo(c: Junctions.Connection, r: int, kb: RoadContactPointKey) {
    c.incomingRoad.index == r && RoadContactPointKey(c.connectingRoad.index, c.contactPoint) == kb
  }

  /** Connections that do not lead from `r` onto `kb` report nothing for the pair. */
  lemma CountJunctionEventsNone(conns: seq<Junctions.Connection>, r: int, ka: RoadContactPointKey, kb: RoadContactPointKey)
    requires ka != kb
    requires forall i :: 0 <= i < |conns| ==> !ConnectsTo(conns[i], r, kb)
    ensures Count(JunctionEvents(conns, r, ka), ka, kb) == 0
  {
    forall e | e in JunctionEvents(conns, r, ka) ensures !Reports(e, ka, kb) {
      var i :| 0 <= i < |conns| && conns[i] == e.connection;
      assert !ConnectsTo(conns[i], r, kb);
    }
  }

  /** The junction branch reports the connections before the last one, then the last. */
  lemma JunctionEventsSnoc(conns: seq<Junctions.Connection>, r: int, ka: RoadContactPointKey)
    requires |conns| > 0
    ensures var c := conns[|conns| - 1];
            JunctionEvents(conns, r, ka)
            == JunctionEvents(conns[..|conns| - 1], r, ka)
               + if c.incomingRoad.index == r
                 then [JunctionRoad(ka, RoadContactPointKey(c.connectingRoad.index, c.contactPoint), c)]
                 else []
  {
  }

  /** The prefix of a connection list keeps the connections that do not lead onto `kb`. */
  lemma PrefixConnectsTo(conns: seq<Junctions.Connection>, prefix: seq<Junctions.Connection>, r: int,
                         kb: RoadContactPointKey, k: int)
    requires 0 < |conns| && prefix == conns[..|conns| - 1]
    requires forall i :: 0 <= i < |conns| && i != k ==> !ConnectsTo(conns[i], r, kb)
    ensures forall i :: 0 <= i < |prefix| && i != k ==> !ConnectsTo(prefix[i], r, kb)
  {
    forall i | 0 <= i < |prefix| && i != k ensures !ConnectsTo(prefix[i], r, kb) {
      assert prefix[i] == conns[i];
    }
  }

  /** A connection listed once, last, is reported once by the junction branch. */
  lemma CountJunctionEventsAtLast(conns: seq<Junctions.Connection>, r: int, ka: RoadContactPointKey,
                                  kb: RoadContactPointKey)
    requires ka != kb && 0 < |conns| && ConnectsTo(conns[|conns| - 1], r, kb)
    requires forall i :: 0 <= i < |conns| - 1 ==> !ConnectsTo(conns[i], r, kb)
    ensures Count(JunctionEvents(conns, r, ka), ka, kb) == 1
  {
    var n := |conns| - 1;
    var c := conns[n];
    var last := [JunctionRoad(ka, kb, c)];
    JunctionEventsSnoc(conns, r, ka);
    PrefixConnectsTo(conns, conns[..n], r, kb, n);
    CountJunctionEventsNone(conns[..n], r, ka, kb);
    CountAppend(JunctionEvents(conns[..n], r, ka), last, ka, kb);
    assert Count(last, ka, kb) == 1;
  }

  /** A connection listed once is reported once by the junction branch. */
  lemma {:induction false} CountJunctionEvents(conns: seq<Junctions.Connection>, r: int, ka: RoadContactPointKey,
                                               kb: RoadContactPointKey, k: nat)
    requires ka != kb && k < |conns| && ConnectsTo(conns[k], r, kb)
    requires forall i :: 0 <= i < |conns| && i != k ==> !ConnectsTo(conns[i], r, kb)
    ensures Count(JunctionEvents(conns, r, ka), ka, kb) == 1
    decreases |conns|
  {
    var n := |conns| - 1;
    if k == n {
      CountJunctionEventsAtLast(conns, r, ka, kb);
    } else {
      var c := conns[n];
      var last := if c.incomingRoad.index == r
                  then [JunctionRoad(ka, RoadContactPointKey(c.connectingRoad.index, c.contactPoint), c)]
                  else [];
      JunctionEventsSnoc(conns, r, ka);
      PrefixConnectsTo(conns, conns[..n], r, kb, k);
      assert conns[..n][k] == conns[k];
      CountJunctionEvents(conns[..n], r, ka, kb, k);
      CountAppend(JunctionEvents(conns[..n], r, ka), last, ka, kb);
      assert Count(last, ka, kb) == 0;
    }
  }

  /** When link `t` of road `r` reports the pair once and the far end's link does
      not lead back to `r`, road `x` reports it once if it is `r` and otherwise not. */
  lemma CountSingleLink(m: XodrMap, r: nat, t: RoadLinkType, kb: RoadContactPointKey, x: nat)
    requires XodrMaps.Linked(m) && r < |m.roads| && x < |m.roads|
    requires 0 <= kb.roadIdx < |m.roads| && kb.contactPoint != ContactPoint.NotSpecified
    requires Count(LinkEvents(m, r, t), FromKey(r, t), kb) == 1
    requires NoLinkBack(m, kb.roadIdx, LinkTypeForContactPoint(kb.contactPoint), r)
    ensures Count(RoadEvents(m, x), FromKey(r, t), kb) == if x == r then 1 else 0
  {
    var ka := FromKey(r, t);
    CountAppend(LinkEvents(m, x, Predecessor), LinkEvents(m, x, Successor), ka, kb);
    forall u: RoadLinkType
      ensures Count(LinkEvents(m, x, u), ka, kb) == if x == r && u == t then 1 else 0
    {
      if x == r && u == t {
      } else if FromKey(x, u) == kb {
        NoLinkBackCount(m, x, u, r, ka, kb);
      } else {
        assert FromKey(x, u) != ka;
        CountOtherLink(m, x, u, ka, kb);
      }
    }
  }

  /** A pair that one link reports once, and whose far end does not link back, is
      reported exactly once by the whole enumeration. */
  lemma SingleLinkReportedOnce(m: XodrMap, r: nat, t: RoadLinkType, kb: RoadContactPointKey)
    requires XodrMaps.Linked(m) && r < |m.roads|
    requires 0 <= kb.roadIdx < |m.roads| && kb.contactPoint != ContactPoint.NotSpecified
    requires Count(LinkEvents(m, r, t), FromKey(r, t), kb) == 1
    requires NoLinkBack(m, kb.roadIdx, LinkTypeForContactPoint(kb.contactPoint), r)
    ensures Count(ForEachRoadLink(m), FromKey(r, t), kb) == 1
  {
    var ka := FromKey(r, t);
    var parts := EventTable(m)[..|m.roads|];
    var n := |m.roads|;
    forall x | 0 <= x < |parts|
      ensures Count(parts[x], ka, kb) == (if x == r && r < n then 1 else 0) + (if x == n && n < r then 1 else 0)
    {
      CountSingleLink(m, r, t, kb, x);
    }
    CountConcat(parts, ka, kb, r, n);
  }

  /** A road inside a junction that links straight to another road reports that
      pair exactly once, provided the other road's link at that end does not lead
      back: the far end of a connecting road is a normal road whose link names the
      junction, or a connecting road of the next junction. */
  lemma JunctionRoadLinkReportedOnce(m: XodrMap, r: nat, t: RoadLinkType)
    requires XodrMaps.Linked(m) && r < |m.roads| && InJunction(m.roads[r])
    requires Roads.RoadLinkOf(m.roads[r], t).elementType == ElementType.Road
    requires var l := Roads.RoadLinkOf(m.roads[r], t);
             NoLinkBack(m, l.elementRef.index, LinkTypeForContactPoint(l.contactPoint), r)
    ensures var l := Roads.RoadLinkOf(m.roads[r], t);
            Count(ForEachRoadLink(m), FromKey(r, t), RoadContactPointKey(l.elementRef.index, l.contactPoint)) == 1
  {
    var l := Roads.RoadLinkOf(m.roads[r], t);
    var kb := RoadContactPointKey(l.elementRef.index, l.contactPoint);
    assert LinkEvents(m, r, t) == [RoadRoad(FromKey(r, t), kb)];
    assert Count([RoadRoad(FromKey(r, t), kb)], FromKey(r, t), kb) == 1;
    SingleLinkReportedOnce(m, r, t, kb);
  }

  /** A road inside a junction whose link names a second junction reports each
      connection that junction lists once for it, exactly once, provided the
      connecting road does not link back. */
  lemma JunctionConnectionReportedOnce(m: XodrMap, r: nat, t: RoadLinkType, k: nat)
    requires XodrMaps.Linked(m) && r < |m.roads| && InJunction(m.roads[r])
    requires Roads.RoadLinkOf(m.roads[r], t).elementType == ElementType.Junction
    requires var conns := m.junctions[Roads.RoadLinkOf(m.roads[r], t).elementRef.index].connections;
             && k < |conns| && conns[k].incomingRoad.index == r
             && (forall i :: 0 <= i < |conns| && i != k ==>
                   !ConnectsTo(conns[i], r, RoadContactPointKey(conns[k].connectingRoad.index, conns[k].contactPoint)))
             && NoLinkBack(m, conns[k].connectingRoad.index, LinkTypeForContactPoint(conns[k].contactPoint), r)
    ensures var c := m.junctions[Roads.RoadLinkOf(m.roads[r], t).elementRef.index].connections[k];
            Count(ForEachRoadLink(m), FromKey(r, t), RoadContactPointKey(c.connectingRoad.index, c.contactPoint)) == 1
  {
    var conns := m.junctions[Roads.RoadLinkOf(m.roads[r], t).elementRef.index].connections;
    var c := conns[k];
    var ka := FromKey(r, t);
    var kb := RoadContactPointKey(c.connectingRoad.index, c.contactPoint);
    assert LinkEvents(m, r, t) == JunctionEvents(conns, r, ka);
    CountJunctionEvents(conns, r, ka, kb, k);
    SingleLinkReportedOnce(m, r, t, kb);
  }

  /** The invocations of a road are among those of every longer prefix of the roads. */
  lemma EnumerateContainsRoad(m: XodrMap, n: nat, r: nat, e: LinkEvent)
    requires XodrMaps.Linked(m) && n <= |m.roads| && r < n
    requires e in RoadEvents(m, r)
    ensures e in Enumerate(m, n)
  {
    var parts := EventTable(m)[..n];
    assert parts[r] == RoadEvents(m, r);
    ConcatContains(parts, r, e);
  }

  /** Roads are visited in index order: the first `n` roads' invocations are the
      first `n - 1` roads' followed by road `n - 1`'s. */
  lemma EnumerateSnoc(m: XodrMap, n: nat)
    requires XodrMaps.Linked(m) && 0 < n <= |m.roads|
    ensures Enumerate(m, n) == Enumerate(m, n - 1) + RoadEvents(m, n - 1)
  {
    var parts := EventTable(m)[..n];
    assert parts[..n - 1] == EventTable(m)[..n - 1];
    assert parts[n - 1] == RoadEvents(m, n - 1);
  }
}
