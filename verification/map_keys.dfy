/** The index keys the validators use to name roads, lane sections, lanes
    and junction lane links (`xodr_map_keys.h`). */
module MapKeys {
  import opened RoadLinks

  /** The position of a contact point in the `ContactPoint` enumeration. */
  function Ordinal(cp: ContactPoint): (n: nat)
    ensures n < 3
    ensures cp == ContactPoint.NotSpecified <==> n == 0
  {
    match cp
    case NotSpecified => 0
    case Start => 1
    case End => 2
  }

  lemma OrdinalInjective(a: ContactPoint, b: ContactPoint)
    ensures Ordinal(a) == Ordinal(b) <==> a == b
  {
  }

  /** `RoadContactPointKey`: one end of a road. */
  datatype RoadContactPointKey = RoadContactPointKey(roadIdx: int, contactPoint: ContactPoint)

  /** `RoadContactPointKey::operator==`. */
  predicate RoadKeyEquals(a: RoadContactPointKey, b: RoadContactPointKey) {
    a.roadIdx == b.roadIdx && a.contactPoint == b.contactPoint
  }

  /** `RoadContactPointKey::operator<`: by road index, then by contact point. */
  predicate RoadKeyLess(a: RoadContactPointKey, b: RoadContactPointKey) {
    if a.roadIdx != b.roadIdx then a.roadIdx < b.roadIdx else Ordinal(a.contactPoint) < Ordinal(b.contactPoint)
  }

  /** `==` is equality of keys. */
  lemma RoadKeyEqualsIsEquality(a: RoadContactPointKey, b: RoadContactPointKey)
    ensures RoadKeyEquals(a, b) <==> a == b
  {
  }

  /** `<` is irreflexive, transitive, and trichotomous together with `==`,
      so it is a strict total order usable as a `std::map` key order. */
  lemma RoadKeyLessIsStrictTotalOrder(a: RoadContactPointKey, b: RoadContactPointKey, c: RoadContactPointKey)
    ensures !RoadKeyLess(a, a)
    ensures RoadKeyLess(a, b) && RoadKeyLess(b, c) ==> RoadKeyLess(a, c)
    ensures (RoadKeyLess(a, b) && !RoadKeyEquals(a, b) && !RoadKeyLess(b, a))
            || (!RoadKeyLess(a, b) && RoadKeyEquals(a, b) && !RoadKeyLess(b, a))
            || (!RoadKeyLess(a, b) && !RoadKeyEquals(a, b) && RoadKeyLess(b, a))
  {
    OrdinalInjective(a.contactPoint, b.contactPoint);
  }

  /** `LaneSectionKey`. */
  datatype LaneSectionKey = LaneSectionKey(roadIdx: int, laneSectionIdx: int)

  /** `LaneSectionKey::operator==`. */
  predicate SectionKeyEquals(a: LaneSectionKey, b: LaneSectionKey) {
    a.roadIdx == b.roadIdx && a.laneSectionIdx == b.laneSectionIdx
  }

  lemma SectionKeyEqualsIsEquality(a: LaneSectionKey, b: LaneSectionKey)
    ensures SectionKeyEquals(a, b) <==> a == b
  {
  }

  /** `LaneSectionContactPointKey`. */
  datatype LaneSectionContactPointKey = LaneSectionContactPointKey(roadIdx: int, laneSectionIdx: int, contactPoint: ContactPoint)
  {
    /** `laneSectionKey()`. */
    function SectionKey(): (k: LaneSectionKey)
      ensures k.roadIdx == roadIdx && k.laneSectionIdx == laneSectionIdx
    {
      LaneSectionKey(roadIdx, laneSectionIdx)
    }
  }

  /** `LaneSectionContactPointKey(LaneSectionKey, ContactPoint)`. */
  function SectionContactPointKey(k: LaneSectionKey, cp: ContactPoint): (r: LaneSectionContactPointKey)
    ensures r.contactPoint == cp
  {
    LaneSectionContactPointKey(k.roadIdx, k.laneSectionIdx, cp)
  }

  /** `LaneSectionContactPointKey::operator==`. */
  predicate SectionContactPointKeyEquals(a: LaneSectionContactPointKey, b: LaneSectionContactPointKey) {
    a.roadIdx == b.roadIdx && a.laneSectionIdx == b.laneSectionIdx && a.contactPoint == b.contactPoint
  }

  /** Building from a section key and reading the section key back is the identity,
      and the contact-point key is determined by its two parts. */
  lemma SectionContactPointKeyRoundTrip(k: LaneSectionKey, cp: ContactPoint, x: LaneSectionContactPointKey)
    ensures SectionContactPointKey(k, cp).SectionKey() == k
    ensures SectionContactPointKey(x.SectionKey(), x.contactPoint) == x
    ensures SectionContactPointKeyEquals(x, SectionContactPointKey(k, cp)) <==> x.SectionKey() == k && x.contactPoint == cp
  {
  }

  /** `LaneKey`. */
  datatype LaneKey = LaneKey(roadIdx: int, laneSectionIdx: int, laneIdx: int)

  /** `LaneKey(LaneSectionKey, int)`. */
  function LaneKeyInSection(k: LaneSectionKey, laneIdx: int): (r: LaneKey)
    ensures r.laneIdx == laneIdx
  {
    LaneKey(k.roadIdx, k.laneSectionIdx, laneIdx)
  }

  /** `LaneKey::operator==`. */
  predicate LaneKeyEquals(a: LaneKey, b: LaneKey) {
    a.roadIdx == b.roadIdx && a.laneSectionIdx == b.laneSectionIdx && a.laneIdx == b.laneIdx
  }

  /** The two `LaneKey` constructors agree, and `==` is equality of keys. */
  lemma LaneKeyConstructorsAgree(k: LaneSectionKey, laneIdx: int, a: LaneKey, b: LaneKey)
    ensures LaneKeyInSection(k, laneIdx) == LaneKey(k.roadIdx, k.laneSectionIdx, laneIdx)
    ensures LaneKeyEquals(a, b) <==> a == b
    ensures LaneKeyEquals(LaneKeyInSection(k, laneIdx), a) <==>
              LaneSectionKey(a.roadIdx, a.laneSectionIdx) == k && a.laneIdx == laneIdx
  {
  }

  /** `JunctionConnectionKey`. */
  datatype JunctionConnectionKey = JunctionConnectionKey(junctionIdx: int, connectionIdx: int)

  /** `JunctionLaneLinkKey`. */
  datatype JunctionLaneLinkKey = JunctionLaneLinkKey(junctionIdx: int, connectionIdx: int, laneLinkIdx: int)

  /** `JunctionLaneLinkKey(JunctionConnectionKey, int)`. */
  function LaneLinkKeyInConnection(k: JunctionConnectionKey, laneLinkIdx: int): (r: JunctionLaneLinkKey)
    ensures r.laneLinkIdx == laneLinkIdx
  {
    JunctionLaneLinkKey(k.junctionIdx, k.connectionIdx, laneLinkIdx)
  }

  /** The lane-link key keeps the connection it was built from. */
  lemma LaneLinkKeyKeepsConnection(k: JunctionConnectionKey, laneLinkIdx: int)
    ensures var r := LaneLinkKeyInConnection(k, laneLinkIdx);
            JunctionConnectionKey(r.junctionIdx, r.connectionIdx) == k
  {
  }
}
